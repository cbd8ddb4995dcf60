# PRESTO F-Fdot plane helpers and RFI bit arrays, in Dafny

This project models the self-contained integer logic of two files of the
PRESTO pulsar-search package:

- `python/presto_addins.py`, the scripting layer around the native search
  library. The model covers four pieces of it:
  - `next2_to_n`, which rounds up to a power of two;
  - the padded correlation length that `ffdot_plane` computes from it, and the
    `[:, 0:numr]` trim of the correlation output;
  - the kernel half-width and result length of `pcorr`;
  - the peak search of `show_ffdot_plane`: reshape the power plane, take the
    flat argmax, and split it into a row (`hiz`) and a column (`hir`).
- `include/rfifind.h`, where the RFI finder keeps bit arrays packed into
  unsigned bytes. The model covers the `GET_BIT`, `SET_BIT` and `UNSET_BIT`
  macros, which number bits most-significant first inside byte `n >> 3`, and
  the `mask_flags` enumeration.

Module `PrestoAddins` (`presto_addins.dfy`) models the script. The script runs
under Python 2, so `PyFloorDiv` and `PyMod` spell out Python's floor division
and modulo; Dafny's own `/` and `%` are Euclidean.

- `next2_to_n` is a loop that doubles a counter, so it is the method
  `Next2ToN`. Its loop invariants prove that the result is a power of two, at
  least `x`, and the first such power. The method is tied to the recursive
  specification `NextPow2`. Lemmas about `NextPow2` prove minimality against
  every power of two, uniqueness, idempotence and monotonicity.
- The native correlator's output is taken as a parameter, a sequence of rows.
  `TrimmedPlaneIsNumzByNumr` proves a property of `FftLen`, the padded
  correlation length. When every row is `FftLen` wide, the Python slice keeps
  exactly the first `numr` points of every row.
- `Numeric.argmax` is the method `ArgMax`, which finds the first largest
  element. `LocatePeak` chains reshape, argmax and decode. It proves that the
  reported cell lies inside the plane and holds the plane's largest power. It
  also proves that no earlier cell, in row-major order, holds as much.

Module `RfiFind` (`rfifind.dfy`) models the header.

- `GetBit`, `WithBitSet` and `WithBitUnset` are the macros as functions on
  the buffer's contents (`seq<bv8>`).
- `SetBit` and `UnsetBit` update a caller's `array<bv8>` in place, as the
  macros do.
- The reference view is `Unpack`, the buffer as a stream of booleans. It is
  written with explicit masks `0x80` … `0x01`, independently of the macros'
  shifts.
- Lemmas prove that `GET_BIT` reads bit `n` of that stream. They also prove
  that `SET_BIT` and `UNSET_BIT` change that bit and no other. The properties
  that follow are get-after-set, frame conditions, idempotence, and
  set-then-unset.

## Model

| member | source | states |
|---|---|---|
| `PrestoAddins.PyFloorDiv` | python/presto_addins.py:278 | Python 2 integer `/` is the floor of the quotient: `b*q <= a < b*q + b` for a positive divisor, the mirror image for a negative one |
| `PrestoAddins.PyMod` | python/presto_addins.py:277 | Python `%` completes floor division (`q*b + r == a`) and lies in `[0, b)` for a positive divisor, `(b, 0]` for a negative one |
| `PrestoAddins.NextPow2` | python/presto_addins.py:88-95 | the first power of two at least `x`: a power of two, at least `x`, and when above 1 its half is below `x` |
| `PrestoAddins.Next2ToN` | python/presto_addins.py:93-95 | the doubling loop from 1 returns a power of two at least `x` whose half is below `x`; for `x <= 1` it returns 1; it equals `NextPow2(x)` |
| `PrestoAddins.NextPow2Least` | python/presto_addins.py:91 | every power of two at least `x` is at least `NextPow2(x)` ("the first value of 2^n >= x") |
| `PrestoAddins.NextPow2Unique` | python/presto_addins.py:91-94 | any power of two at least `x` whose half is below `x` is `NextPow2(x)` |
| `PrestoAddins.NextPow2OfPow2` | python/presto_addins.py:93-94 | a power of two is its own result: the loop stops as soon as `i` reaches `x` |
| `PrestoAddins.NextPow2Idempotent` | python/presto_addins.py:91 | `NextPow2(NextPow2(x)) == NextPow2(x)` |
| `PrestoAddins.NextPow2Monotone` | python/presto_addins.py:91 | `x <= y` implies `NextPow2(x) <= NextPow2(y)` |
| `PrestoAddins.FftLen` | python/presto_addins.py:213 | the correlation length is the first power of two at least `numr + 2*numbetween*kern_half_width` |
| `PrestoAddins.FftLenCoversRow` | python/presto_addins.py:213 | with non-negative `numbetween` and `kern_half_width`, the length is at least `numr` and leaves at least `2*numbetween*kern_half_width` points of padding |
| `PrestoAddins.SliceStop` | python/presto_addins.py:217 | a Python slice end: a negative stop counts from the end, and the result is clamped to `[0, len]` |
| `PrestoAddins.TrimColumns` | python/presto_addins.py:217 | `plane[:, 0:numr]` keeps every row, each cut to a prefix of at most `min(numr, len)` points |
| `PrestoAddins.TrimmedPlaneIsNumzByNumr` | python/presto_addins.py:213-217 | if the correlation rows are `fftlen` wide, the trimmed plane has the same rows, each exactly the first `numr` points |
| `PrestoAddins.PcorrSizing` | python/presto_addins.py:370-371 | zero `numbetween` is a division error; a negative `(hi-lo)*numbetween` is refused; otherwise the result length is `(hi-lo)*numbetween`, and `kern_half_width` is the floor of `len(kernel)/(2*numbetween)` |
| `PrestoAddins.PcorrSizingFits` | python/presto_addins.py:370-371 | for `numbetween > 0` and `lo <= hi` the sizing succeeds, `kern_half_width >= 0` and `2*numbetween*kern_half_width <= len(kernel)` |
| `PrestoAddins.DecodeFlatIndex` | python/presto_addins.py:276-278 | `hiz*numr + hir == highpt` for `hiz = highpt / numr`, `hir = highpt % numr` |
| `PrestoAddins.DecodeFlatIndexInRange` | python/presto_addins.py:276-278 | for `0 <= highpt < numz*numr`: `0 <= hiz < numz` and `0 <= hir < numr` |
| `PrestoAddins.DecodeFlatIndexOfCell` | python/presto_addins.py:276-278 | decoding the row-major index of cell `(hiz, hir)` with `0 <= hir < numr` gives back `(hiz, hir)` |
| `PrestoAddins.Reshape` | python/presto_addins.py:271 | `shape = (numz, numr)` succeeds exactly when the sizes match, giving `numz` rows of `numr` |
| `PrestoAddins.ReshapeAt` | python/presto_addins.py:271 | cell `(z, r)` of the reshaped plane is flat element `z*numr + r` |
| `PrestoAddins.ArgMax` | python/presto_addins.py:276 | `argmax` returns an index whose element is at least every element, and strictly above every earlier one (the first maximum) |
| `PrestoAddins.LocatePeak` | python/presto_addins.py:271-282 | shape mismatch and empty plane are errors; otherwise `(hiz, hir)` is inside the plane, `ffdpow[hiz][hir]` is the largest power, and no earlier cell in row-major order holds as much |
| `RfiFind.FlagValue` | include/rfifind.h:11-13 | every flag's code is at most 4, and only GOOD has code 0 |
| `RfiFind.FlagFromValue` | include/rfifind.h:11-13 | exactly the codes 0..4 name a flag, and the flag named has that code |
| `RfiFind.FlagValueRoundTrip` | include/rfifind.h:11-13 | decoding a flag's code gives the flag back |
| `RfiFind.FlagValueInjective` | include/rfifind.h:11-13 | two flags have the same code exactly when they are the same flag |
| `RfiFind.FlagValuesOrdered` | include/rfifind.h:11-13 | `GOOD = 0 < USER < POW < AVG < VAR = 4` |
| `RfiFind.GetBit` | include/rfifind.h:7 | `GET_BIT` yields 0 or 1 |
| `RfiFind.GetBitIsUnpacked` | include/rfifind.h:7 | `GET_BIT(c, n)` is 1 exactly when bit `n` of the MSB-first bit stream is set |
| `RfiFind.WithBitSet` | include/rfifind.h:8 | `SET_BIT` keeps the buffer length and changes no byte other than `n >> 3` |
| `RfiFind.WithBitUnset` | include/rfifind.h:9 | `UNSET_BIT` keeps the buffer length and changes no byte other than `n >> 3` |
| `RfiFind.UnpackWithBitSet` | include/rfifind.h:8 | after `SET_BIT` the bit stream is the old one with bit `n` true |
| `RfiFind.UnpackWithBitUnset` | include/rfifind.h:9 | after `UNSET_BIT` the bit stream is the old one with bit `n` false |
| `RfiFind.SetBit` | include/rfifind.h:8 | in place: the array's new contents are `WithBitSet` of the old, and its bit stream has only bit `n` set anew |
| `RfiFind.UnsetBit` | include/rfifind.h:9 | in place: the array's new contents are `WithBitUnset` of the old, and its bit stream has only bit `n` cleared |
| `RfiFind.GetAfterSet` | include/rfifind.h:7-8 | `GET_BIT` after `SET_BIT` of the same bit is 1 |
| `RfiFind.GetAfterUnset` | include/rfifind.h:7-9 | `GET_BIT` after `UNSET_BIT` of the same bit is 0 |
| `RfiFind.SetBitFrame` | include/rfifind.h:7-8 | `SET_BIT(c, n)` leaves `GET_BIT(c, m)` unchanged for every `m != n` |
| `RfiFind.UnsetBitFrame` | include/rfifind.h:7-9 | `UNSET_BIT(c, n)` leaves `GET_BIT(c, m)` unchanged for every `m != n` |
| `RfiFind.SetBitIdempotent` | include/rfifind.h:8 | setting a bit twice equals setting it once |
| `RfiFind.UnsetBitIdempotent` | include/rfifind.h:9 | clearing a bit twice equals clearing it once |
| `RfiFind.SetThenUnset` | include/rfifind.h:8-9 | `SET_BIT` then `UNSET_BIT` of bit `n` gives the original buffer with bit `n` cleared |
| `RfiFind.UnsetThenSet` | include/rfifind.h:8-9 | `UNSET_BIT` then `SET_BIT` of bit `n` gives the original buffer with bit `n` set |

## Left out

- The native library calls have no bodies in these files, so their numerics are not modelled: FFTs, F-Fdot correlation (`corr_rz_plane`, `corr_complex`), `z_resp_halfwidth`, maximisation, minifft search, power/phase, barycentring and orbit integration. Their integer outputs enter as parameters: the correlation rows, `kern_half_width`, and the power plane handed to `LocatePeak`.
- Floating point is not modelled. This covers:
  - `numbetween = int(1.0/dr)` and `startbin` in `ffdot_plane`, which truncate toward zero rather than round to nearest;
  - `loz`, `hiz` and `maxabsz`;
  - the float `r`/`z` that `show_ffdot_plane` prints for the peak;
  - `alias`, `p_to_f`, the RA/Dec conversions and the fit in `bary_to_topo`.
  
  `numr`, `numbetween` and `kern_half_width` are taken as given integers.
- File and database I/O (`read_inffile`, `read_makfile`, candidate readers, `psrepoch`, `collect_psrdata`), plotting and printing are not modelled.
- The `rfi` structure and the `rfifind.h` function prototypes are not modelled, since they are declarations without bodies.
- RfiFind.GetBit: `n` is a `nat` and byte `n >> 3` must lie in the buffer. A negative or out-of-range `n` is undefined behaviour in C, so callers of the macros must exclude it.
- RfiFind.SetBit: the same bound on `n` applies. The buffer is a Dafny array, so pointer arithmetic into a larger allocation and aliasing between buffers are not modelled.
- RfiFind.UnsetBit: the same bound on `n` and the same buffer limits as `SetBit`.
- PrestoAddins.LocatePeak: `numz` and `numr` are `nat`. A negative shape, the `-1` wildcard of a shape assignment, and NaN powers in `argmax` are not modelled.
- PrestoAddins.Next2ToN: `x` is an integer. The loop's comparison against a float `x` is not modelled.
- PrestoAddins.PcorrSizing: the model assumes that `Numeric.zeros` refuses a negative length.
