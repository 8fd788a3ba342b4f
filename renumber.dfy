/** Output numbering: by default a frame's output file is numbered from its
    rotation angle rather than from its position in the file. */
module Renumber {
  import opened Wrappers
  import Metadata

  /** `osc_width >= 1e-6`, below which renumbering is off. */
  const MinOscWidth: real := 0.000001

  /** The guard of the renumbering: `renumber` is false after `-x`; the
      angle-based number (`round((start - angles[0]) / width + 1)`, computed
      in floating point) is `angleNumber`. */
  function OutputNumber(frame: int, renumber: bool, oscWidth: real, angleNumber: int): (n: int)
    ensures !renumber ==> n == frame
    ensures oscWidth < MinOscWidth ==> n == frame
    ensures renumber && oscWidth >= MinOscWidth ==> n == angleNumber
  {
    if renumber && oscWidth >= MinOscWidth then angleNumber else frame
  }

  /** Without an oscillation width in the file, frames keep their numbers. */
  lemma NoWidthNoRenumbering(frame: int, renumber: bool, reading: Option<real>, angleNumber: int)
    requires reading.None? || reading.value <= 0.0
    ensures OutputNumber(frame, renumber, Metadata.OscWidth(reading), angleNumber) == frame
  {
  }
}
