/** The WFC3 IR detector of detector.py: exposure timing looked up in a table
    of readout modes, pixel-array geometry, and the on-board buffer limit. */
module Detector {
  import opened Wrappers
  import opened PySemantics

  /** One row of the mode timing table: for a subarray size, a sample
      sequence and a number of samples up the ramp, the time in seconds. */
  datatype ModeRow = ModeRow(subarray: int, sampseq: string, nsamp: int, time: real)

  /** WFC3SimSampleModeError, with the two messages the detector raises it with. */
  datatype SampleModeError =
    | NotPermitted(sampseq: string, nsamp: int, subarray: int)
    | NsampOutOfRange(nsamp: int)

  /** numpy's ValueError when the assigned array cannot be broadcast into the
      light-sensitive region. */
  datatype ShapeError = CannotBroadcast(rows: nat, cols: nat)

  /** Python's ZeroDivisionError. */
  datatype ArithmeticError = ZeroDivision

  /** Side of the full frame and width of the bias-pixel border around the
      light-sensitive region. */
  const FullSide: nat := 1024
  const Border: nat := 5
  const LightSide: nat := 1014

  /** Maximum number of frames (every sample of every exposure) before a buffer dump. */
  const HardLimit: int := 304

  // ---------------------------------------------------------------------------
  // Selecting table rows
  // ---------------------------------------------------------------------------

  /** `idx` lists, in increasing order, exactly the rows of `table` from `lo`
      on that `keep` accepts. */
  ghost predicate IsSelectionFrom(table: seq<ModeRow>, keep: ModeRow -> bool, lo: nat, idx: seq<nat>) {
    && (forall j :: 0 <= j < |idx| ==> lo <= idx[j] < |table| && keep(table[idx[j]]))
    && (forall i :: lo <= i < |table| && keep(table[i]) ==> i in idx)
    && (forall j, k :: 0 <= j < k < |idx| ==> idx[j] < idx[k])
  }

  /** `idx` lists, in increasing order, exactly the rows of `table` that `keep` accepts. */
  ghost predicate IsSelection(table: seq<ModeRow>, keep: ModeRow -> bool, idx: seq<nat>) {
    IsSelectionFrom(table, keep, 0, idx)
  }

  /** The indices of the rows `keep` accepts, in table order (what a boolean
      mask does to a DataFrame). */
  function Matches(table: seq<ModeRow>, keep: ModeRow -> bool): (idx: seq<nat>)
    ensures IsSelection(table, keep, idx)
  {
    if table == [] then []
    else
      var init := Matches(table[..|table| - 1], keep);
      SelectionSnoc(table, keep, init);
      init + (if keep(table[|table| - 1]) then [|table| - 1] else [])
  }

  /** A selection of all rows but the last extends to the whole table by the
      last row's index, when the mask accepts that row. */
  lemma SelectionSnoc(table: seq<ModeRow>, keep: ModeRow -> bool, init: seq<nat>)
    requires table != [] && IsSelection(table[..|table| - 1], keep, init)
    ensures IsSelection(table, keep, init + (if keep(table[|table| - 1]) then [|table| - 1] else []))
  {
    var last := |table| - 1;
    assert forall i :: 0 <= i < last ==> table[..last][i] == table[i];
  }

  /** A selection is unique: a mask picks out one sequence of rows, so "the
      matching rows in table order" is exact. */
  lemma SelectionUnique(table: seq<ModeRow>, keep: ModeRow -> bool, a: seq<nat>, b: seq<nat>)
    requires IsSelection(table, keep, a) && IsSelection(table, keep, b)
    ensures a == b
  {
    SelectionFromUnique(table, keep, 0, a, b);
  }

  lemma {:induction false} SelectionFromUnique(table: seq<ModeRow>, keep: ModeRow -> bool, lo: nat, a: seq<nat>, b: seq<nat>)
    requires IsSelectionFrom(table, keep, lo, a) && IsSelectionFrom(table, keep, lo, b)
    ensures a == b
    decreases |table| - lo
  {
    SelectionHeads(table, keep, lo, a, b);
    if a != [] {
      SelectionTail(table, keep, lo, a);
      SelectionTail(table, keep, lo, b);
      SelectionFromUnique(table, keep, a[0] + 1, a[1..], b[1..]);
      assert a == [a[0]] + a[1..] && b == [b[0]] + b[1..];
    }
  }

  /** Two selections are empty together, and otherwise start at the same row. */
  lemma SelectionHeads(table: seq<ModeRow>, keep: ModeRow -> bool, lo: nat, a: seq<nat>, b: seq<nat>)
    requires IsSelectionFrom(table, keep, lo, a) && IsSelectionFrom(table, keep, lo, b)
    ensures a == [] <==> b == []
    ensures a != [] ==> a[0] == b[0]
  {
    assert a != [] ==> a[0] in b;
    assert b != [] ==> b[0] in a;
    if a != [] && b != [] {
      var i :| 0 <= i < |b| && b[i] == a[0];
      var j :| 0 <= j < |a| && a[j] == b[0];
      assert b[0] <= b[i] && a[0] <= a[j];
    }
  }

  /** A selection is empty exactly when the mask accepts no row. */
  lemma SelectionEmpty(table: seq<ModeRow>, keep: ModeRow -> bool, idx: seq<nat>)
    requires IsSelection(table, keep, idx)
    ensures idx == [] <==> forall i :: 0 <= i < |table| ==> !keep(table[i])
  {
    if idx != [] {
      assert keep(table[idx[0]]);
    }
  }

  /** The first index of a non-empty selection is the first row the mask accepts. */
  lemma SelectionFirst(table: seq<ModeRow>, keep: ModeRow -> bool, idx: seq<nat>)
    requires IsSelection(table, keep, idx) && idx != []
    ensures idx[0] < |table| && keep(table[idx[0]])
    ensures forall i :: 0 <= i < |table| && keep(table[i]) ==> idx[0] <= i
  {
    forall i | 0 <= i < |table| && keep(table[i])
      ensures idx[0] <= i
    {
      var m :| 0 <= m < |idx| && idx[m] == i;
    }
  }

  /** Every selection by the same mask reads the same times. */
  lemma SelectionTimesUnique(table: seq<ModeRow>, keep: ModeRow -> bool, idx: seq<nat>)
    requires IsSelection(table, keep, idx)
    ensures forall other :: IsSelection(table, keep, other) ==> TimesAt(table, idx) == TimesAt(table, other)
  {
    forall other | IsSelection(table, keep, other)
      ensures TimesAt(table, idx) == TimesAt(table, other)
    {
      SelectionUnique(table, keep, idx, other);
    }
  }

  /** Dropping the first index of a selection selects the rows after it. */
  lemma SelectionTail(table: seq<ModeRow>, keep: ModeRow -> bool, lo: nat, a: seq<nat>)
    requires IsSelectionFrom(table, keep, lo, a) && a != []
    ensures IsSelectionFrom(table, keep, a[0] + 1, a[1..])
  {
    forall i | a[0] + 1 <= i < |table| && keep(table[i])
      ensures i in a[1..]
    {
      var j :| 0 <= j < |a| && a[j] == i;
      assert a[1..][j - 1] == i;
    }
  }

  /** The TIME column of the rows at the given indices. */
  function TimesAt(table: seq<ModeRow>, idx: seq<nat>): (times: seq<real>)
    requires forall j :: 0 <= j < |idx| ==> idx[j] < |table|
    ensures |times| == |idx|
    ensures forall j :: 0 <= j < |idx| ==> times[j] == table[idx[j]].time
  {
    seq(|idx|, j requires 0 <= j < |idx| => table[idx[j]].time)
  }

  /** The row is the mode (sampseq, nsamp, subarray) exactly. */
  predicate IsMode(row: ModeRow, nsamp: int, subarray: int, sampseq: string) {
    row.sampseq == sampseq && row.nsamp == nsamp && row.subarray == subarray
  }

  /** The row belongs to the ramp of (sampseq, subarray) up to sample nsamp. */
  predicate IsRampRead(row: ModeRow, nsamp: int, subarray: int, sampseq: string) {
    row.sampseq == sampseq && row.nsamp <= nsamp && row.subarray == subarray
  }

  /** The mask of rows of one mode. */
  function ModeMask(nsamp: int, subarray: int, sampseq: string): ModeRow -> bool {
    row => IsMode(row, nsamp, subarray, sampseq)
  }

  /** The mask of rows of one ramp up to sample nsamp. */
  function RampMask(nsamp: int, subarray: int, sampseq: string): ModeRow -> bool {
    row => IsRampRead(row, nsamp, subarray, sampseq)
  }

  /** In a table whose ramp rows increase in NSAMP, the last row of the ramp up
      to nsamp is the row of mode nsamp itself. */
  lemma RampEndsAtMode(table: seq<ModeRow>, nsamp: int, subarray: int, sampseq: string, k: nat, idx: seq<nat>)
    requires 1 <= nsamp <= 15
    requires k < |table| && IsMode(table[k], nsamp, subarray, sampseq)
    requires forall i, j ::
               (0 <= i < j < |table| && IsRampRead(table[i], 15, subarray, sampseq) &&
                IsRampRead(table[j], 15, subarray, sampseq)) ==> table[i].nsamp < table[j].nsamp
    requires IsSelection(table, RampMask(nsamp, subarray, sampseq), idx)
    ensures idx != [] && idx[|idx| - 1] == k
  {
    var keep := RampMask(nsamp, subarray, sampseq);
    assert keep(table[k]);
    var m :| 0 <= m < |idx| && idx[m] == k;
    var last := idx[|idx| - 1];
    assert keep(table[last]);
    assert IsRampRead(table[last], 15, subarray, sampseq) && IsRampRead(table[k], 15, subarray, sampseq);
    assert table[last].nsamp <= table[k].nsamp;
    assert !(k < last);
  }

  /** In such a table no row before the mode's row is that mode. */
  lemma FirstModeRow(table: seq<ModeRow>, nsamp: int, subarray: int, sampseq: string, k: nat)
    requires 1 <= nsamp <= 15
    requires k < |table| && IsMode(table[k], nsamp, subarray, sampseq)
    requires forall i, j ::
               (0 <= i < j < |table| && IsRampRead(table[i], 15, subarray, sampseq) &&
                IsRampRead(table[j], 15, subarray, sampseq)) ==> table[i].nsamp < table[j].nsamp
    ensures forall j :: 0 <= j < k ==> !IsMode(table[j], nsamp, subarray, sampseq)
  {
    forall j | 0 <= j < k
      ensures !IsMode(table[j], nsamp, subarray, sampseq)
    {
      assert IsRampRead(table[j], 15, subarray, sampseq) ==> table[j].nsamp < table[k].nsamp;
    }
  }

  // ---------------------------------------------------------------------------
  // Buffer capacity
  // ---------------------------------------------------------------------------

  /** Frames the buffer can hold for a subarray: the hard limit of 304, or two
      full-frame 16-sample exposures' worth, 2 * 16 * (1024 / subarray),
      whichever is smaller. */
  function AllowedReads(subarray: int): (limit: int)
    requires subarray != 0
    ensures limit <= HardLimit && limit <= 2 * 16 * FloorDiv(1024, subarray)
    ensures limit == HardLimit || limit == 2 * 16 * FloorDiv(1024, subarray)
  {
    var total := 2 * 16 * FloorDiv(1024, subarray);
    if total > HardLimit then HardLimit else total
  }

  /** The number of exposures of nsamp samples (plus the zero read each) that fit
      in the buffer: the largest n with n * (nsamp + 1) frames within the limit. */
  function MaxExposuresBeforeDump(nsamp: int, subarray: int): (n: int)
    requires subarray != 0 && nsamp != -1
    ensures nsamp >= 0 ==> n * (nsamp + 1) <= AllowedReads(subarray) < (n + 1) * (nsamp + 1)
    ensures nsamp < -1 ==> (n + 1) * (nsamp + 1) < AllowedReads(subarray) <= n * (nsamp + 1)
    ensures nsamp >= 0 && subarray > 0 ==> n >= 0
  {
    var q := FloorDiv(AllowedReads(subarray), nsamp + 1);
    assert q * (nsamp + 1) + (nsamp + 1) == (q + 1) * (nsamp + 1);
    q
  }

  /** The exposures that fit never need more frames than the hard limit, nor
      than two full-frame 16-sample exposures. */
  lemma BufferWithinLimits(nsamp: int, subarray: int)
    requires subarray != 0 && nsamp >= 0
    ensures MaxExposuresBeforeDump(nsamp, subarray) * (nsamp + 1) <= HardLimit
    ensures MaxExposuresBeforeDump(nsamp, subarray) * (nsamp + 1) <= 2 * 16 * FloorDiv(1024, subarray)
  {
  }

  /** Values worked out from the hardware limits. */
  lemma BufferExamples()
    ensures MaxExposuresBeforeDump(15, 1024) == 2
    ensures MaxExposuresBeforeDump(1, 256) == 64
    ensures MaxExposuresBeforeDump(15, 64) == 19
  {
  }

  lemma MulMono(a: int, b: int, c: int)
    requires 0 <= a && b <= c
    ensures a * b <= a * c
  {
    assert a * c - a * b == a * (c - b);
  }

  /** More samples per exposure never let more exposures fit. */
  lemma MoreSamplesFewerExposures(n1: int, n2: int, subarray: int)
    requires subarray > 0 && 0 <= n1 <= n2
    ensures MaxExposuresBeforeDump(n2, subarray) <= MaxExposuresBeforeDump(n1, subarray)
  {
    var q1, q2 := MaxExposuresBeforeDump(n1, subarray), MaxExposuresBeforeDump(n2, subarray);
    var limit := AllowedReads(subarray);
    assert q2 * (n2 + 1) <= limit < (q1 + 1) * (n1 + 1);
    MulMono(q2, n1 + 1, n2 + 1);
    MulCancel(q2, q1 + 1, n1 + 1);
  }

  lemma MulCancel(x: int, y: int, a: int)
    requires a > 0 && x * a < y * a
    ensures x < y
  {
    if x >= y {
      MulMono(a, y, x);
    }
  }

  // ---------------------------------------------------------------------------
  // The detector
  // ---------------------------------------------------------------------------

  /** The WFC3 IR detector. The table of readout modes is loaded once, when the
      object is made, and is read-only afterwards. */
  class WFC3IR {
    const modesTable: seq<ModeRow>
    const telescope: string := "HST"
    const instrument: string := "WFC3"
    const detectorType: string := "IR"

    constructor (modesTable: seq<ModeRow>)
      ensures this.modesTable == modesTable
    {
      this.modesTable := modesTable;
    }

    /** The exposure time of a mode: the TIME of the first row matching all three
        keys, or an error when no row matches. */
    function Exptime(nsamp: int, subarray: int, sampseq: string): (r: Result<real, SampleModeError>)
      ensures r.Failure? <==> forall i :: 0 <= i < |modesTable| ==> !IsMode(modesTable[i], nsamp, subarray, sampseq)
      ensures r.Failure? ==> r.error == NotPermitted(sampseq, nsamp, subarray)
      ensures forall i :: 0 <= i < |modesTable| && IsMode(modesTable[i], nsamp, subarray, sampseq)
                && (forall j :: 0 <= j < i ==> !IsMode(modesTable[j], nsamp, subarray, sampseq))
                ==> r == Success(modesTable[i].time)
    {
      var keep := ModeMask(nsamp, subarray, sampseq);
      var idx := Matches(modesTable, keep);
      SelectionEmpty(modesTable, keep, idx);
      if idx == [] then Failure(NotPermitted(sampseq, nsamp, subarray))
      else
        SelectionFirst(modesTable, keep, idx);
        Success(modesTable[idx[0]].time)
    }

    /** The read times of a ramp: the TIME of every row of the same sample sequence
        and subarray with at most nsamp samples, in table order (not sorted).
        nsamp outside 1..15 is refused before the table is consulted. */
    function GetReadTimes(nsamp: int, subarray: int, sampseq: string): (r: Result<seq<real>, SampleModeError>)
      ensures !(1 <= nsamp <= 15) ==> r == Failure(NsampOutOfRange(nsamp))
      ensures 1 <= nsamp <= 15 ==>
                (r.Failure? <==> forall i :: 0 <= i < |modesTable| ==> !IsRampRead(modesTable[i], nsamp, subarray, sampseq))
      ensures 1 <= nsamp <= 15 && r.Failure? ==> r.error == NotPermitted(sampseq, nsamp, subarray)
      ensures r.Success? ==> forall idx :: IsSelection(modesTable, RampMask(nsamp, subarray, sampseq), idx) ==>
                r.value == TimesAt(modesTable, idx)
    {
      if !(1 <= nsamp <= 15) then Failure(NsampOutOfRange(nsamp))
      else
        var keep := RampMask(nsamp, subarray, sampseq);
        var idx := Matches(modesTable, keep);
        SelectionEmpty(modesTable, keep, idx);
        if idx == [] then Failure(NotPermitted(sampseq, nsamp, subarray))
        else
          SelectionTimesUnique(modesTable, keep, idx);
          Success(TimesAt(modesTable, idx))
    }

    /** When the rows of a ramp appear in increasing NSAMP order and the mode
        itself is in the table, the last read time is the exposure time. */
    lemma ReadTimesEndAtExptime(nsamp: int, subarray: int, sampseq: string, k: nat)
      requires 1 <= nsamp <= 15
      requires k < |modesTable| && IsMode(modesTable[k], nsamp, subarray, sampseq)
      requires forall i, j ::
                 (0 <= i < j < |modesTable| && IsRampRead(modesTable[i], 15, subarray, sampseq) &&
                  IsRampRead(modesTable[j], 15, subarray, sampseq)) ==> modesTable[i].nsamp < modesTable[j].nsamp
      ensures GetReadTimes(nsamp, subarray, sampseq).Success?
      ensures Exptime(nsamp, subarray, sampseq) == Success(modesTable[k].time)
      ensures GetReadTimes(nsamp, subarray, sampseq).value[|GetReadTimes(nsamp, subarray, sampseq).value| - 1]
                == modesTable[k].time
    {
      var keep := RampMask(nsamp, subarray, sampseq);
      var idx := Matches(modesTable, keep);
      RampEndsAtMode(modesTable, nsamp, subarray, sampseq, k, idx);
      assert GetReadTimes(nsamp, subarray, sampseq) == Success(TimesAt(modesTable, idx));
      FirstModeRow(modesTable, nsamp, subarray, sampseq, k);
    }

    /** An all-zero pixel array: the 1014 x 1014 light-sensitive region (the
        default), or the 1024 x 1024 full frame with its border. */
    method GenPixelArray(lightSensitive: bool := true) returns (a: array2<real>)
      ensures fresh(a)
      ensures lightSensitive ==> a.Length0 == LightSide && a.Length1 == LightSide
      ensures !lightSensitive ==> a.Length0 == FullSide && a.Length1 == FullSide
      ensures forall i, j :: 0 <= i < a.Length0 && 0 <= j < a.Length1 ==> a[i, j] == 0.0
    {
      if lightSensitive {
        a := new real[FullSide - 10, FullSide - 10]((i, j) => 0.0);
      } else {
        a := new real[FullSide, FullSide]((i, j) => 0.0);
      }
    }

    /** Embeds a light-sensitive array in a zero full frame, inside the 5-pixel
        border. As numpy assignment does, an input of one row or one column is
        repeated across the region; any other shape than 1014 x 1014 is refused. */
    method AddBiasPixels(pixelArray: array2<real>) returns (r: Result<array2<real>, ShapeError>)
      ensures r.Failure? <==> !(Broadcasts(pixelArray.Length0) && Broadcasts(pixelArray.Length1))
      ensures r.Failure? ==> r.error == CannotBroadcast(pixelArray.Length0, pixelArray.Length1)
      ensures r.Success? ==> fresh(r.value) && r.value.Length0 == FullSide && r.value.Length1 == FullSide
      ensures r.Success? ==> forall i, j :: 0 <= i < LightSide && 0 <= j < LightSide ==>
                r.value[i + Border, j + Border] == BroadcastAt(pixelArray, i, j)
      ensures r.Success? ==> forall i, j :: 0 <= i < FullSide && 0 <= j < FullSide && InBorder(i, j) ==>
                r.value[i, j] == 0.0
    {
      if !(Broadcasts(pixelArray.Length0) && Broadcasts(pixelArray.Length1)) {
        return Failure(CannotBroadcast(pixelArray.Length0, pixelArray.Length1));
      }
      var fullArray := new real[FullSide, FullSide]((i, j) => 0.0);
      var i := 0;
      while i < LightSide
        invariant 0 <= i <= LightSide
        invariant forall y, x :: 0 <= y < i && 0 <= x < LightSide ==>
                    fullArray[y + Border, x + Border] == BroadcastAt(pixelArray, y, x)
        invariant forall y, x :: 0 <= y < FullSide && 0 <= x < FullSide && (InBorder(y, x) || y >= i + Border) ==>
                    fullArray[y, x] == 0.0
      {
        var j := 0;
        while j < LightSide
          invariant 0 <= j <= LightSide
          invariant forall y, x :: 0 <= y < i && 0 <= x < LightSide ==>
                      fullArray[y + Border, x + Border] == BroadcastAt(pixelArray, y, x)
          invariant forall x :: 0 <= x < j ==> fullArray[i + Border, x + Border] == BroadcastAt(pixelArray, i, x)
          invariant forall y, x ::
                      (0 <= y < FullSide && 0 <= x < FullSide &&
                       (InBorder(y, x) || y > i + Border || (y == i + Border && x >= j + Border))) ==>
                      fullArray[y, x] == 0.0
        {
          fullArray[i + Border, j + Border] := BroadcastAt(pixelArray, i, j);
          j := j + 1;
        }
        i := i + 1;
      }
      return Success(fullArray);
    }

    /** num_exp_per_buffer: the exposures that fit before a buffer dump, with the
        divisions by SUBARRAY and by NSAMP + 1 raising ZeroDivisionError at zero. */
    function NumExpPerBuffer(nsamp: int, subarray: int): (r: Result<int, ArithmeticError>)
      ensures r.Failure? <==> subarray == 0 || nsamp + 1 == 0
      ensures r.Failure? ==> r.error == ZeroDivision
      ensures r.Success? && nsamp >= 0 ==>
                r.value * (nsamp + 1) <= AllowedReads(subarray) < (r.value + 1) * (nsamp + 1)
      ensures r.Success? && nsamp < -1 ==>
                (r.value + 1) * (nsamp + 1) < AllowedReads(subarray) <= r.value * (nsamp + 1)
      ensures r.Success? && nsamp >= 0 && subarray > 0 ==> 0 <= r.value && r.value * (nsamp + 1) <= HardLimit
    {
      if subarray == 0 then Failure(ZeroDivision)
      else
        var headersPerExp := nsamp + 1;
        if headersPerExp == 0 then Failure(ZeroDivision)
        else Success(MaxExposuresBeforeDump(nsamp, subarray))
    }
  }

  /** A dimension numpy can broadcast into a light-sensitive side: equal, or 1. */
  predicate Broadcasts(len: nat) {
    len == LightSide || len == 1
  }

  /** Entry (i, j) of the input as broadcast to the light-sensitive shape. */
  function BroadcastAt(a: array2<real>, i: nat, j: nat): real
    reads a
    requires Broadcasts(a.Length0) && Broadcasts(a.Length1) && i < LightSide && j < LightSide
  {
    a[if a.Length0 == 1 then 0 else i, if a.Length1 == 1 then 0 else j]
  }

  /** (i, j) of the full frame lies in the 5-pixel border. */
  predicate InBorder(i: nat, j: nat) {
    i < Border || i >= FullSide - Border || j < Border || j >= FullSide - Border
  }
}
