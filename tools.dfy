/** Index and list utilities of tools.py: splitting a run of exposures into
    orbits by the gaps between their start times, and cropping the central
    box of a square pixel grid. */
module Tools {
  import opened Wrappers
  import opened PySemantics

  // ---------------------------------------------------------------------------
  // detect_orbits
  // ---------------------------------------------------------------------------

  /** Default minimum gap between start times (in days, about 40 minutes) that
      starts a new orbit. */
  const DefaultSeparation: real := 0.028

  /** `exp_start_times[0]` on an empty list raises IndexError. */
  datatype OrbitError = NoExposures

  /** The start time the loop compares exposure i with: the previous one, and
      for the first exposure the first exposure itself. */
  function PreviousStart(times: seq<real>, i: nat): real
    requires 0 < |times| && i < |times|
  {
    if i == 0 then times[0] else times[i - 1]
  }

  /** Exposure i starts a new orbit: its start is at least `separation` after
      the previous one. */
  predicate StartsOrbit(times: seq<real>, separation: real, i: nat)
    requires 0 < |times| && i < |times|
  {
    times[i] - PreviousStart(times, i) >= separation
  }

  /** The exposures below n that start a new orbit, in increasing order. */
  function OrbitStarts(times: seq<real>, separation: real, n: nat): (starts: seq<nat>)
    requires 0 < |times| && n <= |times|
    ensures forall j :: 0 <= j < |starts| ==> starts[j] < n && StartsOrbit(times, separation, starts[j])
    ensures forall i :: 0 <= i < n && StartsOrbit(times, separation, i) ==> i in starts
    ensures forall j, k :: 0 <= j < k < |starts| ==> starts[j] < starts[k]
  {
    if n == 0 then []
    else OrbitStarts(times, separation, n - 1)
           + (if StartsOrbit(times, separation, n - 1) then [n - 1] else [])
  }

  /** The cut points of the orbits: index 0, then every exposure that starts
      an orbit, in order. */
  method DetectOrbits(expStartTimes: seq<real>, separation: real)
    returns (r: Result<seq<nat>, OrbitError>)
    ensures expStartTimes == [] <==> r.Failure?
    ensures r.Success? ==> r.value == [0] + OrbitStarts(expStartTimes, separation, |expStartTimes|)
  {
    if |expStartTimes| == 0 {
      return Failure(NoExposures);
    }
    var lastExpEnd := expStartTimes[0];
    var orbitIndex: seq<nat> := [0];
    for i := 0 to |expStartTimes|
      invariant i < |expStartTimes| ==> lastExpEnd == PreviousStart(expStartTimes, i)
      invariant orbitIndex == [0] + OrbitStarts(expStartTimes, separation, i)
    {
      var expTime := expStartTimes[i];
      var diff := expTime - lastExpEnd;
      if diff >= separation {
        orbitIndex := orbitIndex + [i];
      }
      lastExpEnd := expTime;
    }
    return Success(orbitIndex);
  }

  /** detect_orbits called without a separation: the default of 0.028 days. */
  method DetectOrbitsDefault(expStartTimes: seq<real>) returns (r: Result<seq<nat>, OrbitError>)
    ensures expStartTimes == [] <==> r.Failure?
    ensures r.Success? ==> r.value == [0] + OrbitStarts(expStartTimes, DefaultSeparation, |expStartTimes|)
  {
    r := DetectOrbits(expStartTimes, DefaultSeparation);
  }

  /** The list detect_orbits returns starts with 0, holds only indices of the
      input, and holds an index i > 0 exactly when exposure i starts at least
      `separation` after exposure i - 1. */
  lemma OrbitIndexShape(times: seq<real>, separation: real, i: nat)
    requires 0 < i < |times|
    ensures ([0] + OrbitStarts(times, separation, |times|))[0] == 0
    ensures forall j :: 0 <= j < |[0] + OrbitStarts(times, separation, |times|)| ==>
              ([0] + OrbitStarts(times, separation, |times|))[j] < |times|
    ensures i in [0] + OrbitStarts(times, separation, |times|) <==> times[i] - times[i - 1] >= separation
  {
    var starts := OrbitStarts(times, separation, |times|);
    if i in [0] + starts {
      assert i in starts;
      var j :| 0 <= j < |starts| && starts[j] == i;
    }
  }

  /** With a positive separation the cut points strictly increase: the first
      exposure, compared with itself, never starts a second orbit. */
  lemma OrbitIndexIncreasing(times: seq<real>, separation: real)
    requires 0 < |times| && separation > 0.0
    ensures forall j, k :: 0 <= j < k < |[0] + OrbitStarts(times, separation, |times|)| ==>
              ([0] + OrbitStarts(times, separation, |times|))[j] < ([0] + OrbitStarts(times, separation, |times|))[k]
  {
    var starts := OrbitStarts(times, separation, |times|);
    assert !StartsOrbit(times, separation, 0);
    forall k | 0 <= k < |starts|
      ensures 0 < starts[k]
    {
      assert StartsOrbit(times, separation, starts[k]);
    }
  }

  /** With a separation of zero or less the first exposure, compared with
      itself, starts an orbit of its own, so index 0 appears twice; and when the
      start times are in order, every exposure starts an orbit. */
  lemma NonPositiveSeparationRepeatsZero(times: seq<real>, separation: real)
    requires 0 < |times| && separation <= 0.0
    ensures 1 < |[0] + OrbitStarts(times, separation, |times|)|
    ensures ([0] + OrbitStarts(times, separation, |times|))[1] == 0
    ensures (forall i :: 0 < i < |times| ==> times[i - 1] <= times[i]) ==>
              |[0] + OrbitStarts(times, separation, |times|)| == |times| + 1
  {
    var starts := OrbitStarts(times, separation, |times|);
    assert StartsOrbit(times, separation, 0);
    assert 0 in starts;
    if forall i :: 0 < i < |times| ==> times[i - 1] <= times[i] {
      forall i | 0 <= i < |times| ensures StartsOrbit(times, separation, i) {
        if i > 0 {
          assert times[i - 1] <= times[i];
        }
      }
      CountAllStarts(times, separation, |times|);
    }
  }

  lemma {:induction false} CountAllStarts(times: seq<real>, separation: real, n: nat)
    requires 0 < |times| && n <= |times|
    requires forall i :: 0 <= i < |times| ==> StartsOrbit(times, separation, i)
    ensures |OrbitStarts(times, separation, n)| == n
  {
    if n > 0 {
      CountAllStarts(times, separation, n - 1);
    }
  }

  // ---------------------------------------------------------------------------
  // crop_central_box
  // ---------------------------------------------------------------------------

  /** A grid of n rows of n entries. */
  predicate IsSquare<T>(grid: seq<seq<T>>, n: nat) {
    |grid| == n && forall r :: 0 <= r < n ==> |grid[r]| == n
  }

  /** The offset crop_central_box trims from each side: (len - size) / 2, a
      floor division. */
  function CropIndex(len: nat, size: int): int {
    FloorDiv(len - size, 2)
  }

  /** `s[index:-index]`: the same slice bound cut from both ends. */
  function TrimBoth<T>(s: seq<T>, index: int): seq<T> {
    Slice(s, index, -index)
  }

  /** crop_central_box as written: `array[index:-index, index:-index]`. */
  function CropCentralBox<T>(grid: seq<seq<T>>, size: int): (box: seq<seq<T>>)
    ensures CropIndex(|grid|, size) == 0 ==> box == []
    ensures 0 <= size && CropIndex(|grid|, size) > 0 ==> |box| == |grid| - 2 * CropIndex(|grid|, size)
  {
    var index := CropIndex(|grid|, size);
    var rows := TrimBoth(grid, index);
    seq(|rows|, r requires 0 <= r < |rows| => TrimBoth(rows[r], index))
  }

  /** When the trim is positive, the result is the square left after removing
      `index` rows and columns on every side. */
  lemma CropCentralBoxInterior<T>(grid: seq<seq<T>>, size: int, n: nat)
    requires IsSquare(grid, n) && 0 <= size && CropIndex(n, size) > 0
    ensures 2 * CropIndex(n, size) <= n
    ensures IsSquare(CropCentralBox(grid, size), n - 2 * CropIndex(n, size))
    ensures forall r, c :: 0 <= r < n - 2 * CropIndex(n, size) && 0 <= c < n - 2 * CropIndex(n, size) ==>
              CropCentralBox(grid, size)[r][c] == grid[r + CropIndex(n, size)][c + CropIndex(n, size)]
  {
    var index := CropIndex(n, size);
    assert 2 * index <= n - size;
    SliceInterior(grid, index);
    var rows := TrimBoth(grid, index);
    forall r | 0 <= r < |rows|
      ensures |TrimBoth(rows[r], index)| == n - 2 * index
      ensures forall c :: 0 <= c < n - 2 * index ==> TrimBoth(rows[r], index)[c] == grid[r + index][c + index]
    {
      assert rows[r] == grid[r + index];
      SliceInterior(rows[r], index);
    }
  }

  /** Trimming `index` > 0 entries from each end of a sequence keeps the middle. */
  lemma SliceInterior<T>(s: seq<T>, index: int)
    requires 0 < index && 2 * index <= |s|
    ensures |TrimBoth(s, index)| == |s| - 2 * index
    ensures forall k :: 0 <= k < |s| - 2 * index ==> TrimBoth(s, index)[k] == s[k + index]
  {
    assert SliceBound(index, |s|) == index;
    assert SliceBound(-index, |s|) == |s| - index;
  }

  /** When the trim is zero (size equal to the side, or one less), the stop
      bound `-0` is 0 and the result is empty. */
  lemma CropOfFullSizeIsEmpty<T>(grid: seq<seq<T>>, size: int)
    requires CropIndex(|grid|, size) == 0
    ensures CropCentralBox(grid, size) == []
  {
  }

  /** The case that shows the slip: asking for the whole array back. */
  lemma CropFullSizeCounterexample()
    ensures CropCentralBox([[1, 2], [3, 4]], 2) == []
  {
    CropOfFullSizeIsEmpty([[1, 2], [3, 4]], 2);
  }

  /** The central size x size box, as the function's description intends:
      rows and columns index .. index + size - 1. */
  function CropCentralBoxCorrected<T>(grid: seq<seq<T>>, size: nat): (box: seq<seq<T>>)
    requires size <= |grid|
    requires forall r :: 0 <= r < |grid| ==> |grid[r]| == |grid|
    ensures IsSquare(box, size)
    ensures forall r, c :: 0 <= r < size && 0 <= c < size ==>
              box[r][c] == grid[r + CropIndex(|grid|, size)][c + CropIndex(|grid|, size)]
  {
    var index := CropIndex(|grid|, size);
    seq(size, r requires 0 <= r < size => grid[r + index][index .. index + size])
  }

  /** The corrected crop returns the whole array for size == len(grid), and
      agrees with the code as written whenever that trims an even, positive
      amount. */
  lemma CorrectedAgreesWhereCodeWorks<T>(grid: seq<seq<T>>, size: nat)
    requires IsSquare(grid, |grid|) && size <= |grid|
    ensures size == |grid| ==> CropCentralBoxCorrected(grid, size) == grid
    ensures CropIndex(|grid|, size) > 0 && (|grid| - size) % 2 == 0 ==>
              CropCentralBoxCorrected(grid, size) == CropCentralBox(grid, size)
  {
    var n := |grid|;
    if size == n {
      var box := CropCentralBoxCorrected(grid, size);
      forall r | 0 <= r < n ensures box[r] == grid[r] {
        assert |box[r]| == |grid[r]|;
      }
    }
    if CropIndex(n, size) > 0 && (n - size) % 2 == 0 {
      CropCentralBoxInterior(grid, size, n);
      var a, b := CropCentralBoxCorrected(grid, size), CropCentralBox(grid, size);
      assert |a| == |b|;
      forall r | 0 <= r < size ensures a[r] == b[r] {
        assert |a[r]| == |b[r]|;
      }
    }
  }
}
