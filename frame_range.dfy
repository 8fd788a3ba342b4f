/** The range of frames to convert, from the `-s` and `-e` options (-1 when
    not given) and the number of frames in the master file. */
module ConversionRange {

  const NotGiven: int := -1

  datatype Range = Range(first: int, last: int)

  /** The conversion loop visits `first` to `last` inclusive. */
  predicate Visits(r: Range, frame: int)
  {
    r.first <= frame <= r.last
  }

  /** The set of frames the loop visits. */
  ghost function Frames(r: Range): set<int>
  {
    set f | r.first <= f <= r.last && Visits(r, f)
  }

  /** A range visits `last - first + 1` frames, none when it is empty. */
  lemma FramesCount(r: Range)
    ensures r.first <= r.last ==> |Frames(r)| == r.last - r.first + 1
    ensures r.last < r.first ==> Frames(r) == {}
    decreases r.last - r.first
  {
    if r.first <= r.last {
      if r.first < r.last {
        FramesCount(Range(r.first, r.last - 1));
        assert Frames(r) == Frames(Range(r.first, r.last - 1)) + {r.last};
      } else {
        assert Frames(r) == {r.first};
      }
    }
  }

  /** The defaulting as the source writes it: with neither option the whole
      file, with only `-s N` (N >= 1) the single frame N, otherwise the
      bounds as given, whatever they are. */
  function RangeAsWritten(from: int, to: int, total: int): (r: Range)
    ensures from == NotGiven && to == NotGiven ==> forall f :: Visits(r, f) <==> 1 <= f <= total
    ensures from >= 1 && to == NotGiven ==> forall f :: Visits(r, f) <==> f == from
    ensures !(from == NotGiven && to == NotGiven) && !(from >= 1 && to == NotGiven) ==>
              r == Range(from, to)
  {
    if from == NotGiven && to == NotGiven then Range(1, total)
    else if from >= 1 && to == NotGiven then Range(from, from)
    else Range(from, to)
  }

  /** With only `-e N` the start stays at -1: frames -1 and 0, which do not
      exist, are converted too. */
  lemma RangeAsWrittenEndOnly(to: int, total: int)
    requires to >= 1
    ensures -1 in Frames(RangeAsWritten(NotGiven, to, total))
    ensures 0 in Frames(RangeAsWritten(NotGiven, to, total))
  {
  }

  /** The defaulting the source means: a missing `-s` starts at frame 1. */
  function FrameRange(from: int, to: int, total: int): (r: Range)
    ensures from == NotGiven ==> r.first == 1
    ensures from != NotGiven ==> r.first == from
    ensures to == NotGiven && from == NotGiven ==> r.last == total
    ensures to == NotGiven && from >= 1 ==> r.last == from
    ensures to != NotGiven ==> r.last == to
    ensures to == NotGiven && from != NotGiven && from < 1 ==> r.last == to
  {
    if from == NotGiven && to == NotGiven then Range(1, total)
    else if from >= 1 && to == NotGiven then Range(from, from)
    else if from == NotGiven then Range(1, to)
    else Range(from, to)
  }

  /** The corrected range differs from the source's only when `-e` is given
      without `-s`, and then it never visits a frame below 1. */
  lemma FrameRangeCorrection(from: int, to: int, total: int)
    ensures !(from == NotGiven && to != NotGiven) ==>
              FrameRange(from, to, total) == RangeAsWritten(from, to, total)
    ensures from == NotGiven ==> forall f :: f in Frames(FrameRange(from, to, total)) ==> f >= 1
  {
  }

  /** With neither option given, a file of `total` frames has all of them
      converted, each once. */
  lemma DefaultRangeSize(total: int)
    ensures total >= 1 ==> |Frames(FrameRange(NotGiven, NotGiven, total))| == total
    ensures total < 1 ==> Frames(FrameRange(NotGiven, NotGiven, total)) == {}
  {
    FramesCount(FrameRange(NotGiven, NotGiven, total));
  }

  /** A frame beyond the frame count gets a warning and is still converted. */
  predicate BeyondFrameCount(frame: int, total: int)
  {
    frame > total
  }
}
