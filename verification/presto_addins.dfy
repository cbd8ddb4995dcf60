/** The integer bookkeeping of the F-Fdot plane helpers: sizing the padded
    correlation length, the kernel half-width and output length of a raw
    correlation, and locating the peak of a plane from its flat index.

    The script runs under Python 2, where `/` on two integers is floor
    division and `%` takes the sign of the divisor; both are written out
    below, since Dafny's own `/` and `%` are Euclidean.
 */
module PrestoAddins {

  datatype Result<T, E> = Ok(value: T) | Err(error: E)

  // ---------------------------------------------------------------------------
  // Python 2 integer division
  // ---------------------------------------------------------------------------

  /** Python's `a / b` on integers: the floor of the exact quotient. */
  function PyFloorDiv(a: int, b: int): (q: int)
    requires b != 0
    ensures b > 0 ==> b * q <= a < b * q + b
    ensures b < 0 ==> b * q >= a > b * q + b
  {
    if b > 0 then a / b else (-a) / (-b)
  }

  /** Python's `a % b` on integers: what is left over after `PyFloorDiv`,
      carrying the sign of the divisor. */
  function PyMod(a: int, b: int): (r: int)
    requires b != 0
    ensures PyFloorDiv(a, b) * b + r == a
    ensures b > 0 ==> 0 <= r < b
    ensures b < 0 ==> b < r <= 0
  {
    a - b * PyFloorDiv(a, b)
  }

  // ---------------------------------------------------------------------------
  // next2_to_n
  // ---------------------------------------------------------------------------

  /** `n` is 2^k for some k >= 0. */
  predicate IsPow2(n: int)
    decreases if n < 0 then 0 else n
  {
    n == 1 || (n >= 2 && n % 2 == 0 && IsPow2(n / 2))
  }

  /** The first power of two that is at least `x`: 1 when `x <= 1`, and
      otherwise twice the first power of two that is at least half of `x`
      (rounded up). */
  function NextPow2(x: int): (r: nat)
    ensures IsPow2(r)
    ensures x <= r
    ensures r > 1 ==> r / 2 < x
  {
    if x <= 1 then 1 else 2 * NextPow2((x + 1) / 2)
  }

  /** next2_to_n: start at 1 and double until the value reaches `x`. */
  method Next2ToN(x: int) returns (i: nat)
    ensures IsPow2(i) && x <= i
    ensures i > 1 ==> i / 2 < x
    ensures x <= 1 ==> i == 1
    ensures i == NextPow2(x)
  {
    i := 1;
    while i < x
      invariant IsPow2(i)
      invariant i > 1 ==> i / 2 < x
      decreases x - i
    {
      i := i * 2;
    }
    NextPow2Unique(x, i);
  }

  /** Of two powers of two, the smaller is at most half the larger. */
  lemma {:induction false} Pow2BelowIsAtMostHalf(a: int, b: int)
    requires IsPow2(a) && IsPow2(b) && a < b
    ensures a <= b / 2
  {
    if a > 1 {
      Pow2BelowIsAtMostHalf(a / 2, b / 2);
    }
  }

  /** Minimality: no power of two at least `x` is below `NextPow2(x)`. */
  lemma NextPow2Least(x: int, p: int)
    requires IsPow2(p) && x <= p
    ensures NextPow2(x) <= p
  {
    var r := NextPow2(x);
    if p < r {
      Pow2BelowIsAtMostHalf(p, r);
    }
  }

  /** A power of two that is at least `x` and whose half is below `x` is
      `NextPow2(x)`: the two postconditions of next2_to_n pin its result down. */
  lemma NextPow2Unique(x: int, p: int)
    requires IsPow2(p) && x <= p
    requires p > 1 ==> p / 2 < x
    ensures p == NextPow2(x)
  {
    var r := NextPow2(x);
    if p < r {
      Pow2BelowIsAtMostHalf(p, r);
    } else if r < p {
      Pow2BelowIsAtMostHalf(r, p);
    }
  }

  /** A power of two is its own next power of two. */
  lemma NextPow2OfPow2(p: int)
    requires IsPow2(p)
    ensures NextPow2(p) == p
  {
    if p > 1 {
      Pow2HalfBelow(p);
    }
    NextPow2Unique(p, p);
  }

  lemma Pow2HalfBelow(p: int)
    requires IsPow2(p) && p > 1
    ensures p / 2 < p
  {
  }

  /** Idempotence: rounding up twice is rounding up once. */
  lemma NextPow2Idempotent(x: int)
    ensures NextPow2(NextPow2(x)) == NextPow2(x)
  {
    NextPow2OfPow2(NextPow2(x));
  }

  /** Rounding up to a power of two preserves order. */
  lemma NextPow2Monotone(x: int, y: int)
    requires x <= y
    ensures NextPow2(x) <= NextPow2(y)
  {
    NextPow2Least(x, NextPow2(y));
  }

  // ---------------------------------------------------------------------------
  // ffdot_plane: sizing the correlation and trimming its output
  // ---------------------------------------------------------------------------

  /** The padded transform length: the first power of two that holds `numr`
      output points plus `numbetween * kernHalfWidth` kernel points on each side. */
  function FftLen(numr: int, numbetween: int, kernHalfWidth: int): (fftlen: nat)
    ensures IsPow2(fftlen)
    ensures fftlen >= numr + 2 * numbetween * kernHalfWidth
    ensures fftlen > 1 ==> fftlen / 2 < numr + 2 * numbetween * kernHalfWidth
  {
    NextPow2(numr + 2 * numbetween * kernHalfWidth)
  }

  /** With non-negative factors the padding only adds: the transform is at
      least `numr` wide, so `numr` columns fit in every row. */
  lemma FftLenCoversRow(numr: int, numbetween: nat, kernHalfWidth: nat)
    ensures FftLen(numr, numbetween, kernHalfWidth) >= numr
    ensures FftLen(numr, numbetween, kernHalfWidth) - numr >= 2 * numbetween * kernHalfWidth
  {
    assert numbetween * kernHalfWidth >= 0;
  }

  /** Where a Python slice `[0:stop]` ends on a sequence of length `len`:
      a negative stop counts from the end, and the result is clamped to the sequence. */
  function SliceStop(stop: int, len: nat): (e: nat)
    ensures e <= len
    ensures 0 <= stop <= len ==> e == stop
    ensures stop > len ==> e == len
    ensures stop < 0 ==> e == if stop + len < 0 then 0 else stop + len
  {
    if stop < 0 then (if stop + len < 0 then 0 else stop + len)
    else if stop > len then len
    else stop
  }

  /** `plane[:, 0:numr]`: every row cut down to its first `numr` columns. */
  function TrimColumns<T>(plane: seq<seq<T>>, numr: int): (p: seq<seq<T>>)
    ensures |p| == |plane|
    ensures forall i :: 0 <= i < |p| ==> |p[i]| <= |plane[i]| && p[i] == plane[i][..|p[i]|]
    ensures forall i :: 0 <= i < |p| && 0 <= numr ==> |p[i]| == if numr <= |plane[i]| then numr else |plane[i]|
  {
    seq(|plane|, i requires 0 <= i < |plane| => plane[i][..SliceStop(numr, |plane[i]|)])
  }

  /** When every row of the correlation output is `FftLen` wide, trimming to
      `numr` columns gives rows of exactly `numr` points, the first `numr` of each row. */
  lemma TrimmedPlaneIsNumzByNumr<T>(plane: seq<seq<T>>, numr: nat, numbetween: nat, kernHalfWidth: nat)
    requires forall i :: 0 <= i < |plane| ==> |plane[i]| == FftLen(numr, numbetween, kernHalfWidth)
    ensures |TrimColumns(plane, numr)| == |plane|
    ensures forall i :: 0 <= i < |plane| ==> numr <= |plane[i]| && TrimColumns(plane, numr)[i] == plane[i][..numr]
  {
    FftLenCoversRow(numr, numbetween, kernHalfWidth);
  }

  // ---------------------------------------------------------------------------
  // pcorr: kernel half-width and output length
  // ---------------------------------------------------------------------------

  /** How the sizing of a raw correlation can fail in the script. */
  datatype PcorrError =
    | ZeroDivision        // numbetween == 0 makes `2 * numbetween` a zero divisor
    | NegativeDimensions  // a negative `(hi - lo) * numbetween` is refused by `zeros`

  datatype PcorrSize = PcorrSize(kernHalfWidth: int, resultLen: nat)

  /** The half-width handed to the correlator and the length of the result
      vector: `numbetween` points per bin from `lo` up to, not including, `hi`. */
  function PcorrSizing(kernelLen: nat, numbetween: int, lo: int, hi: int): (r: Result<PcorrSize, PcorrError>)
    ensures r == Err(ZeroDivision) <==> numbetween == 0
    ensures r == Err(NegativeDimensions) <==> numbetween != 0 && (hi - lo) * numbetween < 0
    ensures r.Ok? ==> r.value.resultLen == (hi - lo) * numbetween
    ensures r.Ok? && numbetween > 0 ==>
              2 * numbetween * r.value.kernHalfWidth <= kernelLen < 2 * numbetween * r.value.kernHalfWidth + 2 * numbetween
  {
    if numbetween == 0 then Err(ZeroDivision)
    else
      var kernHalfWidth := PyFloorDiv(kernelLen, 2 * numbetween);
      var len := (hi - lo) * numbetween;
      if len < 0 then Err(NegativeDimensions)
      else Ok(PcorrSize(kernHalfWidth, len))
  }

  /** With a positive `numbetween` and `lo <= hi` the sizing succeeds and the
      kernel's `2 * numbetween * kernHalfWidth` taps, a non-negative number,
      fit inside the kernel. */
  lemma PcorrSizingFits(kernelLen: nat, numbetween: int, lo: int, hi: int)
    requires numbetween > 0 && lo <= hi
    ensures PcorrSizing(kernelLen, numbetween, lo, hi).Ok?
    ensures PcorrSizing(kernelLen, numbetween, lo, hi).value.kernHalfWidth >= 0
    ensures 2 * numbetween * PcorrSizing(kernelLen, numbetween, lo, hi).value.kernHalfWidth <= kernelLen
  {
    MulMonotone(0, hi - lo, numbetween);
    var b := 2 * numbetween;
    var q := PcorrSizing(kernelLen, numbetween, lo, hi).value.kernHalfWidth;
    assert kernelLen < b * q + b;
    if q < 0 {
      MulMonotone(q + 1, 0, b);
    }
  }

  // ---------------------------------------------------------------------------
  // show_ffdot_plane: the peak of the power plane
  // ---------------------------------------------------------------------------

  /** The row-major flat index of row `hiz`, column `hir`. */
  function FlatIndex(hiz: int, hir: int, numr: int): int
  {
    hiz * numr + hir
  }

  /** The flat argmax index split into `(hiz, hir)`: `highpt / numr` and
      `highpt % numr` with Python's integer division. */
  function DecodeFlatIndex(highpt: int, numr: int): (zr: (int, int))
    requires numr != 0
    ensures FlatIndex(zr.0, zr.1, numr) == highpt
  {
    (PyFloorDiv(highpt, numr), PyMod(highpt, numr))
  }

  /** A flat index inside a `numz` by `numr` plane decodes to a row below
      `numz` and a column below `numr`. */
  lemma DecodeFlatIndexInRange(highpt: int, numz: int, numr: int)
    requires numr > 0 && 0 <= highpt < numz * numr
    ensures 0 <= DecodeFlatIndex(highpt, numr).0 < numz
    ensures 0 <= DecodeFlatIndex(highpt, numr).1 < numr
  {
    var (hiz, hir) := DecodeFlatIndex(highpt, numr);
    if hiz >= numz {
      assert hiz * numr >= numz * numr by { MulMonotone(numz, hiz, numr); }
    }
    if hiz < 0 {
      assert hiz * numr <= -numr by { MulMonotone(hiz, -1, numr); }
    }
  }

  lemma MulMonotone(a: int, b: int, c: nat)
    requires a <= b
    ensures a * c <= b * c
  {
  }

  /** Decoding inverts the row-major flattening of every cell of the plane. */
  lemma DecodeFlatIndexOfCell(hiz: int, hir: int, numr: int)
    requires 0 <= hir < numr
    ensures DecodeFlatIndex(FlatIndex(hiz, hir, numr), numr) == (hiz, hir)
  {
    var (z, r) := DecodeFlatIndex(FlatIndex(hiz, hir, numr), numr);
    if z < hiz {
      assert z * numr + numr <= hiz * numr by { MulMonotone(z + 1, hiz, numr); }
    } else if z > hiz {
      assert hiz * numr + numr <= z * numr by { MulMonotone(hiz + 1, z, numr); }
    }
  }

  /** `ffdpow.shape = (numz, numr)`: the flat powers viewed as `numz` rows of
      `numr` columns, or `None` when the sizes do not match. */
  function Reshape<T>(flat: seq<T>, numz: nat, numr: nat): (rows: Option<seq<seq<T>>>)
    ensures rows.Some? <==> |flat| == numz * numr
    ensures rows.Some? ==> |rows.value| == numz
    ensures rows.Some? ==> forall z :: 0 <= z < numz ==> |rows.value[z]| == numr
  {
    if |flat| != numz * numr then None
    else Some(seq(numz, z requires 0 <= z < numz => Row(flat, numz, numr, z)))
  }

  /** Row `z` of the reshaped plane: the `numr` flat elements from `z * numr` on. */
  function Row<T>(flat: seq<T>, numz: nat, numr: nat, z: nat): (row: seq<T>)
    requires |flat| == numz * numr && z < numz
    ensures |row| == numr
  {
    RowFits(numz, numr, z);
    flat[z * numr .. z * numr + numr]
  }

  /** Row `z` of a `numz` by `numr` plane ends within the plane. */
  lemma RowFits(numz: nat, numr: nat, z: nat)
    requires z < numz
    ensures z * numr + numr <= numz * numr
  {
    MulMonotone(z + 1, numz, numr);
  }

  /** Cell `(z, r)` of the reshaped plane is element `z * numr + r` of the flat powers. */
  lemma ReshapeAt<T>(flat: seq<T>, numz: nat, numr: nat, z: int, r: int)
    requires |flat| == numz * numr && 0 <= z < numz && 0 <= r < numr
    ensures FlatIndex(z, r, numr) < |flat|
    ensures Reshape(flat, numz, numr).value[z][r] == flat[FlatIndex(z, r, numr)]
  {
    RowFits(numz, numr, z);
  }

  datatype Option<T> = None | Some(value: T)

  /** `Numeric.argmax`: the index of the first largest element. */
  method ArgMax(a: seq<real>) returns (k: nat)
    requires |a| > 0
    ensures k < |a|
    ensures forall j :: 0 <= j < |a| ==> a[j] <= a[k]
    ensures forall j :: 0 <= j < k ==> a[j] < a[k]
  {
    k := 0;
    var i := 1;
    while i < |a|
      invariant 1 <= i <= |a|
      invariant k < i
      invariant forall j :: 0 <= j < i ==> a[j] <= a[k]
      invariant forall j :: 0 <= j < k ==> a[j] < a[k]
    {
      if a[i] > a[k] {
        k := i;
      }
      i := i + 1;
    }
  }

  /** The peak reported for a plane: its row, its column and its power. */
  datatype Peak = Peak(hiz: int, hir: int, power: real)

  datatype PeakError =
    | ShapeMismatch  // the powers cannot be viewed as numz rows of numr columns
    | EmptyPlane     // there is no maximum of an empty plane

  /** Reshape the powers, take the flat argmax and split it into row and
      column: the reported cell is in the plane, holds the largest power,
      and no earlier cell in row-major order holds as much. */
  method LocatePeak(ffdpow: seq<real>, numz: nat, numr: nat) returns (res: Result<Peak, PeakError>)
    ensures res == Err(ShapeMismatch) <==> |ffdpow| != numz * numr
    ensures res == Err(EmptyPlane) <==> |ffdpow| == numz * numr && |ffdpow| == 0
    ensures res.Ok? ==> 0 <= res.value.hiz < numz && 0 <= res.value.hir < numr
    ensures res.Ok? ==> forall z, r :: 0 <= z < numz && 0 <= r < numr ==>
              Reshape(ffdpow, numz, numr).value[z][r] <= res.value.power
    ensures res.Ok? ==> Reshape(ffdpow, numz, numr).value[res.value.hiz][res.value.hir] == res.value.power
    ensures res.Ok? ==> FlatIndex(res.value.hiz, res.value.hir, numr) < |ffdpow|
    ensures res.Ok? ==> forall j :: 0 <= j < FlatIndex(res.value.hiz, res.value.hir, numr) ==>
              ffdpow[j] < res.value.power
  {
    var plane := Reshape(ffdpow, numz, numr);
    if plane.None? {
      return Err(ShapeMismatch);
    }
    if |ffdpow| == 0 {
      return Err(EmptyPlane);
    }
    assert numr > 0;
    var highpt := ArgMax(ffdpow);
    var (hiz, hir) := DecodeFlatIndex(highpt, numr);
    DecodeFlatIndexInRange(highpt, numz, numr);
    ReshapeAt(ffdpow, numz, numr, hiz, hir);
    forall z, r | 0 <= z < numz && 0 <= r < numr
      ensures plane.value[z][r] <= ffdpow[highpt]
    {
      ReshapeAt(ffdpow, numz, numr, z, r);
    }
    res := Ok(Peak(hiz, hir, plane.value[hiz][hir]));
  }
}
