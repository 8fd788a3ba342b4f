# eiger2cbf frame conversion core, in Dafny

`eiger2cbf-omp.c` converts an EIGER HDF5 master file and its data blocks into
one miniCBF file per frame. Nearly all of it is one `main` that calls HDF5
and CBFlib. This project models the integer and string logic inside it, with
the library calls replaced by their outcomes (an `Option` per HDF5 read):

- **Metadata resolution** (`metadata.dfy`). Bit depth and the saturation
  value `error_val`. The four-step count-cutoff fallback. The distance and
  wavelength chains ("first positive candidate"). The oscillation-width
  default. The frame count `nimages * ntrigger`.
  Each HDF5 read either overwrites its variable or leaves it as it was.
  The model keeps that behaviour (`Overwrite`).
- **Frame range** (`frame_range.dfy`): the defaulting of `-s` / `-e`.
- **Block index** (`block_index.dfy`). Whether blocks start at `data_000000`
  or `data_000001`. The probe of the first block. The frame → (block,
  offset) mapping with C's truncating `/` and `%`, and its inverse.
- **Renumbering guard** (`renumber.dfy`): when the output number is the
  frame number itself.
- **Names** (`paths.dfy`, `decimal.dfy`). `extractFilename`. The default
  prefix (file name up to the first `master.`). The `%06d` block and output
  names, proved readable back to their number.
- **Pixel classification** (`pixel_classifier.dfy`). Loading the pixel mask
  with its `-9999` sentinel in slot 0. The in-place loop that turns the raw
  `unsigned int` frame into the signed CBF array. The loop includes the
  unsigned-to-signed conversion of line 557.
- **Per-frame plan** (`frame_plan.dfy`): where one frame is read from, what
  file it is written to, and whether it lies beyond the frame count.

The model follows the code, except where "## Findings" records a
correction; the as-written behaviour is modelled beside each correction.
Where the code and its own messages disagree, the model follows the code:

- Distance and wavelength are not reset to -1 when no candidate is positive,
  although the warnings of lines 266 and 312 say the field is set to -1. A
  read that returned 0 or a negative value is kept (`ResolveChainSpec`).

A frame whose block read fails is still written (lines 518-574): the error
is logged and the CBF file is produced. The plan of a frame therefore always
names its output file.

## Model

| member | source | states |
|---|---|---|
| `CInts.ToSigned32` | eiger2cbf-omp.c:557 | the `unsigned int` → `signed int` copy keeps values below 2^31 and maps the rest to value − 2^32 |
| `CInts.SubU32` | eiger2cbf-omp.c:216 | unsigned `error_val - 1` wraps modulo 2^32 |
| `CInts.CDiv` | eiger2cbf-omp.c:467 | C division truncates toward zero: the remainder lies between 0 and the dividend |
| `CInts.CMod` | eiger2cbf-omp.c:468 | C remainder: quotient·divisor + remainder = dividend, with the remainder's sign following the dividend |
| `Decimal.Format06` | eiger2cbf-omp.c:433 | `%06d` is at least six characters: all digits for n ≥ 0, a '-' followed by digits for n < 0 |
| `Decimal.Format06RoundTrip` | eiger2cbf-omp.c:433 | the `%06d` text of any int reads back as that int |
| `Decimal.Format06Injective` | eiger2cbf-omp.c:433 | distinct numbers give distinct `%06d` texts |
| `Decimal.Format06Width` | eiger2cbf-omp.c:387 | `%06d` is exactly 6 characters for 0..999999 and −99999..−1, and 6 to 11 for any 32-bit int |
| `Paths.LastSlash` | eiger2cbf-omp.c:61 | `strrchr(path, '/')`: none iff no '/', otherwise the index of a '/' with no '/' after it |
| `Paths.ExtractFilename` | eiger2cbf-omp.c:59-73 | result is a '/'-free suffix of the path; the whole path when it has no '/', else exactly what follows the last '/' |
| `Paths.ExtractFilenameOfJoin` | eiger2cbf-omp.c:59-73 | the file name of `dir + "/" + name` is `name` |
| `Paths.Find` | eiger2cbf-omp.c:125 | `strstr`: none iff the pattern never occurs, otherwise the first index where it occurs |
| `Paths.DefaultPrefix` | eiger2cbf-omp.c:122-133 | the default prefix is the part of the master file's name before its first `master.`, and contains no '/' |
| `Paths.OutputPrefix` | eiger2cbf-omp.c:101-133 | `-p` wins; otherwise the default prefix |
| `Paths.DefaultPrefixOfMasterFile` | eiger2cbf-omp.c:122-133 | for `dir/<p>master.<ext>` with no earlier `master.`, the prefix is `p` |
| `Paths.BlockName` | eiger2cbf-omp.c:472 | `data_%06d`: starts with `data_` and the rest reads back as the block number |
| `Paths.BlockNameFits` | eiger2cbf-omp.c:382-387 | every 32-bit block name plus NUL fits the 20-byte `data_name`, so it is never truncated |
| `Paths.OutputFileName` | eiger2cbf-omp.c:432-433 | `<prefix>%06d.cbf`: starts with the prefix, ends in `.cbf`, and the middle reads back as the output number |
| `Paths.OutputFileNameInjective` | eiger2cbf-omp.c:433 | with one prefix, distinct output numbers give distinct file names |
| `Metadata.Overwrite` | eiger2cbf-omp.c:186 | a successful read replaces the variable; a failed one leaves it |
| `Metadata.BitDepth` | eiger2cbf-omp.c:172-181 | depth is positive: the value read when positive, else 16 |
| `Metadata.ErrorVal` | eiger2cbf-omp.c:182 | `error_val` = 2^depth − 1 for depth ≤ 32 and 2^32 − 1 (low 32 bits) beyond |
| `Metadata.CountCutoffAsWritten` | eiger2cbf-omp.c:186-221 | the source's cutoff is the first positive of `saturation_value`, `countrate_correction_count_cutoff` + 1 and the `detectorModule_000` cutoff + 1, else the unsigned `error_val − 1` converted to int |
| `Metadata.CountCutoffAsWrittenNegative` | eiger2cbf-omp.c:216 | with depth ≥ 32 and no cutoff field the source's cutoff is −2 |
| `Metadata.LastResortCutoff` | eiger2cbf-omp.c:216-217 | last resort `error_val − 1`, clamped to INT_MAX, never negative |
| `Metadata.CountCutoff` | eiger2cbf-omp.c:186-221 | the same ordered fallback with the corrected last resort; the cutoff is never negative |
| `Metadata.CountCutoffAgreesWhenNonNegative` | eiger2cbf-omp.c:216 | the correction agrees with the source whenever the source's cutoff is non-negative |
| `Metadata.LegacyModuleCutoffExample` | eiger2cbf-omp.c:205-212 | a module-level cutoff of 99 gives 100, whether the second field is absent or read as 0 |
| `Metadata.FirstPositive` | eiger2cbf-omp.c:249-309 | reference: the first present positive reading, none iff no reading is positive |
| `Metadata.LastPresent` | eiger2cbf-omp.c:249-309 | reference: the last present reading, none iff every read failed |
| `Metadata.ResolveChainSpec` | eiger2cbf-omp.c:249-309 | a read-then-test chain gives the first positive candidate, else the last value read, else the initial −1 |
| `Metadata.ResolveChain` | eiger2cbf-omp.c:249-309 | a read-then-test chain ends on its initial value or on one of the values read; from a non-positive start it is positive iff some candidate is |
| `Metadata.Distance` | eiger2cbf-omp.c:249-268 | distance: primary if positive, else the legacy read if it succeeded, −1 when neither was read |
| `Metadata.Wavelength` | eiger2cbf-omp.c:271-313 | wavelength is positive iff one of the four candidates is, and is then the first positive one; otherwise the last value read is kept, −1 when none was read |
| `Metadata.OscWidth` | eiger2cbf-omp.c:315-324 | width is the value read when positive, else 0 |
| `Metadata.TotalFrames` | eiger2cbf-omp.c:145-159 | frame count `nimages * ntrigger`, with −1 and 1 kept when a read fails |
| `Metadata.ResolveMetadata` | eiger2cbf-omp.c:172-324 | resolved record: each field is its own resolution (`BitDepth`, `ErrorVal`, `CountCutoff`, `Distance`, `Wavelength`, `OscWidth`, `TotalFrames`) of the readings; positive depth, `error_val` = 2^depth − 1 (65535 by default), non-negative cutoff and width; the cutoff is the source's whenever the source's is non-negative, the corrected one otherwise |
| `ConversionRange.RangeAsWritten` | eiger2cbf-omp.c:148-157 | neither option: exactly frames 1..nimages·ntrigger; only `-s N` (N ≥ 1): exactly frame N; every other combination: the bounds as given |
| `ConversionRange.RangeAsWrittenEndOnly` | eiger2cbf-omp.c:148-157 | with only `-e`, frames −1 and 0 are visited |
| `ConversionRange.FrameRange` | eiger2cbf-omp.c:148-157 | corrected defaulting: a missing `-s` starts at 1; otherwise as in the source |
| `ConversionRange.DefaultRangeSize` | eiger2cbf-omp.c:148-152 | with neither option, a file of `total` ≥ 1 frames has exactly `total` frames converted, none when `total` < 1 |
| `ConversionRange.FrameRangeCorrection` | eiger2cbf-omp.c:148-157 | the correction changes only the `-e`-only case, where no visited frame is below 1 |
| `BlockIndex.BlockStart` | eiger2cbf-omp.c:371-380 | blocks start at 0 iff `data_000000` exists, else at 1 |
| `BlockIndex.ProbeLayout` | eiger2cbf-omp.c:382-403 | the first block must open and be rank 3, or setup fails naming it; frames per block is its leading dimension |
| `BlockIndex.BlockFor` | eiger2cbf-omp.c:467-468 | the address is inside the layout (block not below the start, offset in [0, per block)) iff frame ≥ 1, and then (block − start)·per block + offset = frame − 1 |
| `BlockIndex.FrameAtInverse` | eiger2cbf-omp.c:467-468 | every in-layout address is the address of exactly the frame `FrameAt` gives |
| `BlockIndex.BlockForInjective` | eiger2cbf-omp.c:467-468 | distinct frames ≥ 1 map to distinct (block, offset) pairs |
| `BlockIndex.BlockForBeforeFirstFrame` | eiger2cbf-omp.c:467-468 | a frame ≤ 0 with per block > 1 − frame maps to the first block with the negative offset frame − 1 |
| `Renumber.OutputNumber` | eiger2cbf-omp.c:426-430 | output number is the frame unless renumbering is on and width ≥ 1e-6 |
| `Renumber.NoWidthNoRenumbering` | eiger2cbf-omp.c:426-430 | with no positive width in the file, output number = frame number |
| `FramePlan.PlanFrame` | eiger2cbf-omp.c:426-472 | per frame: an in-layout address that maps back to the frame; the output number of the renumbering guard; a block name `data_…` that reads back as the block; a file name that reads back as the output number; the beyond-count warning iff frame > total |
| `FramePlan.DistinctFramesDistinctPlans` | eiger2cbf-omp.c:426-472 | distinct frames read distinct places and, without renumbering, write distinct files |
| `FramePlan.OneFilePerFrame` | eiger2cbf-omp.c:426-433 | without renumbering, a set of frames ≥ 1 is written to as many distinct files as it has frames |
| `FramePlan.DefaultRunWritesEveryFrame` | eiger2cbf-omp.c:412-433 | a default run over `total` ≥ 1 frames, without renumbering, writes exactly `total` distinct files |
| `FramePlan.DefaultRangePlans` | eiger2cbf-omp.c:436-468 | every frame of the default range is read inside the layout and draws no beyond-count warning |
| `PixelClassifier.LoadedMask` | eiger2cbf-omp.c:355-356 | mask buffer after loading: the read mask, or the sentinel in slot 0 with the other slots untouched |
| `PixelClassifier.LoadPixelMask` | eiger2cbf-omp.c:355-356 | in place on the buffer, the loaded mask |
| `PixelClassifier.LoadedMaskPresence` | eiger2cbf-omp.c:355-357 | the mask counts as present iff it was read and its first pixel is not −9999 |
| `PixelClassifier.ClassifyPixel` | eiger2cbf-omp.c:546-557 | with a mask the flag alone decides (1 → −1, above 1 → −2, below 1 → raw); without one only a raw value equal to `error_val` becomes −1 |
| `PixelClassifier.Classified` | eiger2cbf-omp.c:544-559 | every output pixel is −1, −2 or its raw value as signed int, one per input pixel |
| `PixelClassifier.ClassifyFrame` | eiger2cbf-omp.c:544-559 | writes every pixel of the signed buffer with its classification; raw buffer and mask unchanged |
| `PixelClassifier.MaskDecides` | eiger2cbf-omp.c:546-553 | with a mask: flag 1 → −1, flag > 1 → −2, any other flag keeps the raw value even if it equals `error_val` |
| `PixelClassifier.NoMaskUsesErrorVal` | eiger2cbf-omp.c:546-558 | without a mask: raw = `error_val` → −1, anything else keeps its raw value |
| `PixelClassifier.AbsentMaskContentsIgnored` | eiger2cbf-omp.c:546-551 | without a mask the rest of the mask buffer does not affect the output |
| `PixelClassifier.SentinelsUnambiguous` | eiger2cbf-omp.c:544-559 | for raw values below 2^31, an output is negative iff the pixel was flagged, and otherwise equals the raw value |
| `PixelClassifier.WrappedCountLooksMasked` | eiger2cbf-omp.c:557 | without a mask, a raw count 2^32 − 2 comes out as −2 |
| `PixelClassifier.NoMaskExample` | eiger2cbf-omp.c:544-559 | 4-bit frame [0,15,3,15] without mask → [0,−1,3,−1] |
| `PixelClassifier.MaskExample` | eiger2cbf-omp.c:544-559 | mask [0,2,1,0] on [5,5,5,5] → [5,−2,−1,5] |

## Findings

| source | as written | input that shows it | evidently intended | confidence | as-written member | corrected member |
|---|---|---|---|---|---|---|
| eiger2cbf-omp.c:216 | `countrate_cutoff = error_val - 1` stores an `unsigned int` into an `int` | `bit_depth_image` = 32 and none of the three cutoff fields present: cutoff −2 in the header | a large positive cutoff, as the message at line 217 says | medium, not executed | `Metadata.CountCutoffAsWrittenNegative` | `Metadata.CountCutoff` |
| eiger2cbf-omp.c:148-157 | only `-s` is defaulted when the other bound is missing | `-e 5` without `-s`: `from` stays −1 and frames −1, 0, 1, …, 5 are converted | a missing start frame means frame 1 | medium, not executed | `ConversionRange.RangeAsWrittenEndOnly` | `ConversionRange.FrameRange` |

## Left out

- HDF5 access (opening the file, dataset reads, hyperslab selection, `H5Dread`). Each read is an `Option` input. The pixel data of a frame is the raw array given to `ClassifyFrame`.
- Per-frame read failures (lines 473-521). They only set a message, which is printed, and the frame's file is still written from whatever the buffer holds. The model has no buffer history.
- CBF record construction and writing (lines 526-574). This is external compression and file output.
- The header text (lines 443-463). It is floating-point formatting, and its arguments do not match its format string.
- The OpenMP loop (line 411). The model plans and classifies one frame at a time. The shared `buf`/`buf_signed` race between threads is not modelled.
- Start angles: the `omega` table with its −9999 sentinel, and `osc_width * frame`. The rounded angle-based number of line 429 is the `angleNumber` parameter of `Renumber.OutputNumber`.
- Sensor thickness, pixel size, beam centre, exposure times, description, serial number and firmware version. They are only printed or put in the header.
- Floating point: doubles are `real`. NaN (which fails every comparison) and the inexactness of `1e-6` are not modelled.
- `getopt` and `access` (lines 91-119), filter registration, and all stderr/stdout diagnostics.
- Allocation failures, and `xpixels * ypixels` overflowing or not being positive.
- `diff.py`: a comparison script around an external library, with no logic of its own.
- Metadata.TotalFrames: does not model 32-bit overflow of `nimages * ntrigger`.
- Metadata.CountCutoff, Metadata.CountCutoffAsWritten: do not model the signed overflow of `countrate_cutoff++` on a stored cutoff of INT_MAX, which is undefined behaviour.
- Metadata.ErrorVal: requires a bit depth below 64, because a larger shift is undefined behaviour in C.
- Paths.DefaultPrefix: requires `master.` to occur in the file name, because the source subtracts a possibly NULL `strstr` result.
- Paths.OutputFileName: does not model truncation of the file name at 4095 characters (the `snprintf` buffer is 4096 bytes).
- PixelClassifier.LoadedMask: requires the mask dataset to have exactly `xpixels * ypixels` entries. A larger dataset would overrun the buffer in the source; a smaller one would leave the tail of the buffer uninitialised, which the model cannot express.
- Metadata.ResolveMetadata: carries the corrected count cutoff (`CountCutoff`), not the −2 the source writes when the last resort wraps; its contract ties the two together wherever the source's value is non-negative.
- BlockIndex.BlockFor: requires frames per block to be positive. `ProbeLayout` accepts a first block whose leading dimension is 0, after which the source divides by zero at line 467; a leading dimension of 2^31 or more gives a negative frames-per-block, for which no mapping is modelled.
- FramePlan.PlanFrame: requires frames per block to be positive, for the same reason as `BlockFor`.
- CInts.ToSigned32: the unsigned-to-signed conversion of values of 2^31 and above is implementation-defined in C (section 6.3.1.3 of the C99 standard); the model assumes two's-complement wrap-around, as do `BlockIndex.ProbeLayout` (the leading dimension as `int`) and `Metadata.CountCutoffAsWritten` (its last resort).
- Renumber.OutputNumber: takes the angle-based number as a parameter. Without an `omega` table, `angles[0]` keeps −9999 and line 429 computes round(frame + 9999/width + 1), so frame 10 at width 0.1 would be written as number 100001; this consequence is not modelled.
