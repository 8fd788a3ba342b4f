/** Resolution of detector metadata from a master file whose layout changed
    across firmware versions. Each HDF5 read either succeeds, overwriting the
    variable it reads into, or fails and leaves the variable as it was; an
    `Option` is the outcome of one such read. Floating-point fields are
    `real`: only their comparisons with zero matter here. */
module Metadata {
  import opened Wrappers
  import opened CInts

  /** `H5LTread_dataset_*(…, &v)`: a successful read replaces `v`. */
  function Overwrite<T>(current: T, reading: Option<T>): (v: T)
    ensures reading.Some? ==> v == reading.value
    ensures reading.None? ==> v == current
  {
    reading.GetOr(current)
  }

  // ---------------------------------------------------------------------
  // Bit depth and the saturation ("error") value

  const DefaultBitDepth: int := 16

  /** `depth` starts at -1; a non-positive or missing `bit_depth_image` gives 16. */
  function BitDepth(reading: Option<i32>): (depth: int)
    ensures depth > 0
    ensures reading.Some? && reading.value > 0 ==> depth == reading.value
    ensures !(reading.Some? && reading.value > 0) ==> depth == DefaultBitDepth
  {
    var depth := Overwrite(-1, reading);
    if depth > 0 then depth else DefaultBitDepth
  }

  function Pow2(n: nat): (r: nat)
    ensures r >= 1
  {
    if n == 0 then 1 else 2 * Pow2(n - 1)
  }

  /** `(unsigned int)((1ULL << depth) - 1)`, the largest pixel value of the
      bit depth: 2^depth - 1 up to 32 bits; beyond that the conversion to
      `unsigned int` keeps the low 32 bits, which are all ones. A shift by
      64 or more is undefined in C, hence the bound. */
  function ErrorVal(depth: int): (e: u32)
    requires 0 < depth < 64
    ensures e >= 1
    ensures depth <= 32 ==> e == Pow2(depth) - 1
    ensures depth >= 32 ==> e == TWO32 - 1
  {
    LowBitsOfMask(depth);
    (Pow2(depth) - 1) % TWO32
  }

  lemma {:induction false} Pow2Add(a: nat, b: nat)
    ensures Pow2(a + b) == Pow2(a) * Pow2(b)
    decreases a
  {
    if a > 0 {
      Pow2Add(a - 1, b);
    }
  }

  lemma {:induction false} Pow2Monotone(a: nat, b: nat)
    requires a <= b
    ensures Pow2(a) <= Pow2(b)
    decreases b
  {
    if a < b {
      Pow2Monotone(a, b - 1);
    }
  }

  lemma Pow2Of32()
    ensures Pow2(32) == TWO32
  {
    assert Pow2(8) == 256;
    Pow2Add(8, 8);
    Pow2Add(16, 16);
  }

  /** The low 32 bits of 2^depth - 1. */
  lemma LowBitsOfMask(depth: nat)
    requires depth > 0
    ensures depth <= 32 ==> (Pow2(depth) - 1) % TWO32 == Pow2(depth) - 1
    ensures depth >= 32 ==> (Pow2(depth) - 1) % TWO32 == TWO32 - 1
  {
    Pow2Of32();
    if depth <= 32 {
      Pow2Monotone(depth, 32);
    } else {
      Pow2Add(32, depth - 32);
      var m := Pow2(depth - 32);
      assert Pow2(depth) - 1 == (m - 1) * TWO32 + (TWO32 - 1);
    }
  }

  // ---------------------------------------------------------------------
  // Count-rate cutoff

  predicate Positive(reading: Option<i32>) { reading.Some? && reading.value > 0 }

  /** The count cutoff exactly as the source computes it: `countrate_cutoff`
      starts at -1 and is read, in turn, from `saturation_value` (firmware
      >= 1.5), `countrate_correction_count_cutoff` (>= 1.4, stored value + 1)
      and the `detectorModule_000` copy (< 1.4, stored value + 1); the first
      positive value wins. When none is positive the unsigned `error_val - 1`
      is stored into the `int`. A failed read leaves a non-positive value
      behind, so it never wins. */
  function CountCutoffAsWritten(saturation: Option<i32>, countCutoff: Option<i32>,
                                moduleCutoff: Option<i32>, errorVal: u32): (c: int)
    ensures Positive(saturation) ==> c == saturation.value
    ensures !Positive(saturation) && Positive(countCutoff) ==> c == countCutoff.value + 1
    ensures !Positive(saturation) && !Positive(countCutoff) && Positive(moduleCutoff) ==>
              c == moduleCutoff.value + 1
    ensures !Positive(saturation) && !Positive(countCutoff) && !Positive(moduleCutoff) ==>
              c == ToSigned32(SubU32(errorVal, 1))
  {
    var c := Overwrite(-1, saturation);
    if c > 0 then c
    else
      var c := Overwrite(c, countCutoff);
      if c > 0 then c + 1
      else
        var c := Overwrite(c, moduleCutoff);
        if c > 0 then c + 1
        else ToSigned32(SubU32(errorVal, 1))
  }

  /** With a 32-bit (or wider) image and no cutoff field, the "arbitrary
      large number" put in the header is -2. */
  lemma CountCutoffAsWrittenNegative(depth: int)
    requires 32 <= depth < 64
    ensures CountCutoffAsWritten(None, None, None, ErrorVal(depth)) == -2
  {
  }

  /** The last-resort cutoff the source means: `error_val - 1`, clamped to
      the largest `int` instead of wrapping to a negative number. */
  function LastResortCutoff(errorVal: u32): (c: int)
    ensures 0 <= c <= I32Max
    ensures 1 <= errorVal ==> c < errorVal
    ensures 1 <= errorVal <= I32Max + 1 ==> c == errorVal - 1
    ensures errorVal > I32Max + 1 ==> c == I32Max
  {
    var c := SubU32(errorVal, 1);
    if c > I32Max then I32Max else c
  }

  /** The count cutoff with the corrected last resort. */
  function CountCutoff(saturation: Option<i32>, countCutoff: Option<i32>,
                       moduleCutoff: Option<i32>, errorVal: u32): (c: int)
    requires errorVal >= 1
    ensures c >= 0
    ensures Positive(saturation) ==> c == saturation.value
    ensures !Positive(saturation) && Positive(countCutoff) ==> c == countCutoff.value + 1
    ensures !Positive(saturation) && !Positive(countCutoff) && Positive(moduleCutoff) ==>
              c == moduleCutoff.value + 1
    ensures !Positive(saturation) && !Positive(countCutoff) && !Positive(moduleCutoff) ==>
              c == LastResortCutoff(errorVal)
  {
    var c := Overwrite(-1, saturation);
    if c > 0 then c
    else
      var c := Overwrite(c, countCutoff);
      if c > 0 then c + 1
      else
        var c := Overwrite(c, moduleCutoff);
        if c > 0 then c + 1
        else LastResortCutoff(errorVal)
  }

  /** The correction changes only the last resort, and only where the
      source's value came out negative. */
  lemma CountCutoffAgreesWhenNonNegative(saturation: Option<i32>, countCutoff: Option<i32>,
                                         moduleCutoff: Option<i32>, errorVal: u32)
    requires errorVal >= 1
    ensures CountCutoffAsWritten(saturation, countCutoff, moduleCutoff, errorVal) >= 0 ==>
              CountCutoff(saturation, countCutoff, moduleCutoff, errorVal)
                == CountCutoffAsWritten(saturation, countCutoff, moduleCutoff, errorVal)
  {
  }

  /** A module-level cutoff of 99 on old firmware gives a cutoff of 100. */
  lemma LegacyModuleCutoffExample(errorVal: u32)
    requires errorVal >= 1
    ensures CountCutoff(None, Some(0), Some(99), errorVal) == 100
    ensures CountCutoff(None, None, Some(99), errorVal) == 100
  {
  }

  // ---------------------------------------------------------------------
  // Distance and wavelength: "first positive candidate, else whatever was
  // read last"

  /** The nested `if (v > 0) … else read the next path` chains for the
      detector distance and the wavelength: each candidate is read into the
      same variable and the chain stops at the first positive value. */
  function ResolveChain(current: real, readings: seq<Option<real>>): (v: real)
    ensures v == current || Some(v) in readings
    ensures current <= 0.0 ==> (v > 0.0 <==> FirstPositive(readings).Some?)
    decreases |readings|
  {
    if readings == [] then current
    else
      var v := Overwrite(current, readings[0]);
      if v > 0.0 then v
      else
        var w := ResolveChain(v, readings[1..]);
        assert readings == [readings[0]] + readings[1..];
        w
  }

  /** The first reading that is present and positive. */
  function FirstPositive(readings: seq<Option<real>>): (r: Option<real>)
    ensures r.Some? ==> r.value > 0.0 && Some(r.value) in readings
    ensures r.None? <==> forall i :: 0 <= i < |readings| && readings[i].Some? ==> readings[i].value <= 0.0
  {
    if readings == [] then None
    else if readings[0].Some? && readings[0].value > 0.0 then readings[0]
    else
      var r := FirstPositive(readings[1..]);
      assert forall i :: 1 <= i < |readings| ==> readings[i] == readings[1..][i - 1];
      r
  }

  /** The last reading that is present. */
  function LastPresent(readings: seq<Option<real>>): (r: Option<real>)
    ensures r.None? <==> forall i :: 0 <= i < |readings| ==> readings[i].None?
    ensures r.Some? ==> r in readings
  {
    if readings == [] then None
    else if readings[|readings| - 1].Some? then readings[|readings| - 1]
    else
      var r := LastPresent(readings[..|readings| - 1]);
      assert readings == readings[..|readings| - 1] + [readings[|readings| - 1]];
      r
  }

  lemma {:induction false} LastPresentCons(first: Option<real>, rest: seq<Option<real>>)
    ensures LastPresent([first] + rest) == if LastPresent(rest).Some? then LastPresent(rest) else first
    decreases |rest|
  {
    var s := [first] + rest;
    if rest != [] {
      assert s[..|s| - 1] == [first] + rest[..|rest| - 1];
      assert s[|s| - 1] == rest[|rest| - 1];
      LastPresentCons(first, rest[..|rest| - 1]);
    }
  }

  /** The chain yields the first positive candidate; when there is none it
      yields the value of the last successful read, or the initial value
      when every read failed. A value that was read but is not positive
      (0, say) is therefore kept. */
  lemma {:induction false} ResolveChainSpec(current: real, readings: seq<Option<real>>)
    requires current <= 0.0
    ensures ResolveChain(current, readings) ==
              match FirstPositive(readings)
              case Some(v) => v
              case None => LastPresent(readings).GetOr(current)
    decreases |readings|
  {
    if readings != [] {
      var v := Overwrite(current, readings[0]);
      if v <= 0.0 {
        ResolveChainSpec(v, readings[1..]);
        assert readings == [readings[0]] + readings[1..];
        LastPresentCons(readings[0], readings[1..]);
      }
    }
  }

  const Unresolved: real := -1.0

  /** Detector distance: `/entry/instrument/detector/distance` (firmware
      >= 1.7) when positive, else whatever `detector_distance` read, else
      the -1 the variable started with. */
  function Distance(primary: Option<real>, legacy: Option<real>): (d: real)
    ensures primary.Some? && primary.value > 0.0 ==> d == primary.value
    ensures !(primary.Some? && primary.value > 0.0) && legacy.Some? ==> d == legacy.value
    ensures primary.Some? && legacy.None? ==> d == primary.value
    ensures primary.None? && legacy.None? ==> d == Unresolved
  {
    ResolveChainSpec(Unresolved, [primary, legacy]);
    ResolveChain(Unresolved, [primary, legacy])
  }

  /** Wavelength: the sample beam's `incident_wavelength`, the instrument
      beam's `wavelength`, the monochromator's `wavelength`, the instrument
      beam's `incident_wavelength` (firmware 1.6), in that order. It is
      positive exactly when some candidate is, and is then the first one. */
  function Wavelength(sampleBeam: Option<real>, beam: Option<real>,
                      monochromator: Option<real>, legacyBeam: Option<real>): (w: real)
    ensures w > 0.0 <==> FirstPositive([sampleBeam, beam, monochromator, legacyBeam]).Some?
    ensures w > 0.0 ==> w == FirstPositive([sampleBeam, beam, monochromator, legacyBeam]).value
    ensures FirstPositive([sampleBeam, beam, monochromator, legacyBeam]).None? ==>
              w == LastPresent([sampleBeam, beam, monochromator, legacyBeam]).GetOr(Unresolved)
    ensures sampleBeam.None? && beam.None? && monochromator.None? && legacyBeam.None? ==>
              w == Unresolved
  {
    ResolveChainSpec(Unresolved, [sampleBeam, beam, monochromator, legacyBeam]);
    ResolveChain(Unresolved, [sampleBeam, beam, monochromator, legacyBeam])
  }

  /** Oscillation width: `omega_range_average` when positive, else 0. */
  function OscWidth(reading: Option<real>): (w: real)
    ensures w >= 0.0
    ensures w > 0.0 <==> reading.Some? && reading.value > 0.0
    ensures w > 0.0 ==> w == reading.value
  {
    var w := Overwrite(-1.0, reading);
    if w > 0.0 then w else 0.0
  }

  // ---------------------------------------------------------------------
  // Frame counts

  /** `nimages` starts at -1, `ntrigger` at 1; the number of frames is their
      product. */
  function TotalFrames(nimages: Option<i32>, ntrigger: Option<i32>): (total: int)
    ensures nimages.None? ==> total == -(ntrigger.GetOr(1) as int)
    ensures ntrigger.None? ==> total == nimages.GetOr(-1)
    ensures nimages.Some? && ntrigger.Some? ==> total == nimages.value as int * ntrigger.value as int
  {
    var n: int := Overwrite(-1, nimages);
    var t: int := Overwrite(1, ntrigger);
    n * t
  }

  // ---------------------------------------------------------------------
  // The resolved record

  datatype Readings = Readings(
    nimages: Option<i32>, ntrigger: Option<i32>,
    bitDepth: Option<i32>,
    saturationValue: Option<i32>, countCutoff: Option<i32>, moduleCountCutoff: Option<i32>,
    distance: Option<real>, detectorDistance: Option<real>,
    sampleBeamWavelength: Option<real>, beamWavelength: Option<real>,
    monochromatorWavelength: Option<real>, beamIncidentWavelength: Option<real>,
    oscWidth: Option<real>)

  /** The resolved metadata. Its count cutoff is the corrected one
      (`CountCutoff`), which differs from the source only where the source's
      is negative. */
  datatype DetectorMetadata = DetectorMetadata(
    totalFrames: int, depth: int, errorVal: u32, countCutoff: int,
    distance: real, wavelength: real, oscWidth: real)

  /** A bit depth the shift in `error_val` can handle. */
  predicate DepthReadable(r: Readings)
  {
    r.bitDepth.None? || r.bitDepth.value < 64
  }

  function ResolveMetadata(r: Readings): (m: DetectorMetadata)
    requires DepthReadable(r)
    ensures m.depth == BitDepth(r.bitDepth) && m.errorVal == ErrorVal(m.depth)
    ensures m.depth > 0
    ensures m.depth <= 32 ==> m.errorVal == Pow2(m.depth) - 1
    ensures r.bitDepth.None? ==> m.depth == 16 && m.errorVal == 65535
    ensures m.countCutoff >= 0
    ensures var asWritten := CountCutoffAsWritten(r.saturationValue, r.countCutoff,
                                                   r.moduleCountCutoff, m.errorVal);
            asWritten >= 0 ==> m.countCutoff == asWritten
    ensures m.countCutoff == CountCutoff(r.saturationValue, r.countCutoff,
                                         r.moduleCountCutoff, m.errorVal)
    ensures m.distance == Distance(r.distance, r.detectorDistance)
    ensures m.wavelength == Wavelength(r.sampleBeamWavelength, r.beamWavelength,
                                       r.monochromatorWavelength, r.beamIncidentWavelength)
    ensures m.oscWidth == OscWidth(r.oscWidth) && m.oscWidth >= 0.0
    ensures m.totalFrames == TotalFrames(r.nimages, r.ntrigger)
  {
    var depth := BitDepth(r.bitDepth);
    var errorVal := ErrorVal(depth);
    assert Pow2(8) == 256;
    Pow2Add(8, 8);
    DetectorMetadata(
      TotalFrames(r.nimages, r.ntrigger), depth, errorVal,
      CountCutoff(r.saturationValue, r.countCutoff, r.moduleCountCutoff, errorVal),
      Distance(r.distance, r.detectorDistance),
      Wavelength(r.sampleBeamWavelength, r.beamWavelength,
                 r.monochromatorWavelength, r.beamIncidentWavelength),
      OscWidth(r.oscWidth))
  }
}
