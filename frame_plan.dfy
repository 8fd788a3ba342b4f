/** What the conversion loop decides for one frame before it reads pixels:
    where the frame is stored, which output number and file name it gets,
    and whether it lies beyond the frame count (a warning, not an error). */
module FramePlan {
  import opened Decimal
  import opened Paths
  import opened BlockIndex
  import opened Renumber
  import opened ConversionRange

  datatype Plan = Plan(address: Address, blockName: string, outputNumber: int,
                       fileName: string, beyondFrameCount: bool)

  /** Lines 426-441 and 467-472 for one frame. */
  function PlanFrame(frame: int, layout: Layout, total: int, prefix: string,
                     renumber: bool, oscWidth: real, angleNumber: int): (p: Plan)
    requires layout.perBlock > 0
    ensures frame >= 1 ==> InLayout(p.address, layout) && FrameAt(p.address, layout) == frame
    ensures p.outputNumber == OutputNumber(frame, renumber, oscWidth, angleNumber)
    ensures |BlockTag| <= |p.blockName| && p.blockName[..|BlockTag|] == BlockTag
    ensures ParseInt(p.blockName[|BlockTag|..]) == p.address.block
    ensures |prefix| + |OutputExtension| <= |p.fileName| && p.fileName[..|prefix|] == prefix
    ensures ParseInt(p.fileName[|prefix|..|p.fileName| - |OutputExtension|]) == p.outputNumber
    ensures p.beyondFrameCount <==> frame > total
  {
    var address := BlockFor(frame, layout);
    var n := OutputNumber(frame, renumber, oscWidth, angleNumber);
    Plan(address, BlockName(address.block), n, OutputFileName(prefix, n),
         BeyondFrameCount(frame, total))
  }

  /** Two different frames of a run never read the same place, and unless
      frames are renumbered by angle they never write the same file. */
  lemma DistinctFramesDistinctPlans(f1: int, f2: int, layout: Layout, total: int, prefix: string,
                                    renumber: bool, oscWidth: real, a1: int, a2: int)
    requires layout.perBlock > 0 && f1 >= 1 && f2 >= 1 && f1 != f2
    ensures PlanFrame(f1, layout, total, prefix, renumber, oscWidth, a1).address
            != PlanFrame(f2, layout, total, prefix, renumber, oscWidth, a2).address
    ensures !renumber || oscWidth < MinOscWidth ==>
              PlanFrame(f1, layout, total, prefix, renumber, oscWidth, a1).fileName
              != PlanFrame(f2, layout, total, prefix, renumber, oscWidth, a2).fileName
  {
    var p1 := PlanFrame(f1, layout, total, prefix, renumber, oscWidth, a1);
    var p2 := PlanFrame(f2, layout, total, prefix, renumber, oscWidth, a2);
    BlockForInjective(f1, f2, layout);
    OutputFileNameInjective(prefix, f1, f2);
  }

  /** Over the default range every frame is planned inside the file's
      blocks, and those beyond the frame count are flagged. */
  lemma DefaultRangePlans(frame: int, layout: Layout, nimagesTotal: int, prefix: string,
                          renumber: bool, oscWidth: real, angleNumber: int)
    requires layout.perBlock > 0
    requires Visits(FrameRange(NotGiven, NotGiven, nimagesTotal), frame)
    ensures var p := PlanFrame(frame, layout, nimagesTotal, prefix, renumber, oscWidth, angleNumber);
            InLayout(p.address, layout) && !p.beyondFrameCount
  {
  }

  /** The names of the files written for a set of frames. */
  ghost function WrittenFiles(frames: set<int>, layout: Layout, total: int, prefix: string,
                              renumber: bool, oscWidth: real, angleNumber: int): set<string>
    requires layout.perBlock > 0
  {
    set f | f in frames :: PlanFrame(f, layout, total, prefix, renumber, oscWidth, angleNumber).fileName
  }

  /** Without renumbering, every converted frame gets a file of its own. */
  lemma {:induction false} OneFilePerFrame(frames: set<int>, layout: Layout, total: int,
                                           prefix: string, oscWidth: real, angleNumber: int)
    requires layout.perBlock > 0
    requires forall f :: f in frames ==> f >= 1
    ensures |WrittenFiles(frames, layout, total, prefix, false, oscWidth, angleNumber)| == |frames|
    decreases |frames|
  {
    if frames != {} {
      assert exists y :: y in frames by {
        if forall y :: y !in frames {
        }
      }
      var x :| x in frames;
      var rest := frames - {x};
      var name := PlanFrame(x, layout, total, prefix, false, oscWidth, angleNumber).fileName;
      OneFilePerFrame(rest, layout, total, prefix, oscWidth, angleNumber);
      forall f | f in rest
        ensures PlanFrame(f, layout, total, prefix, false, oscWidth, angleNumber).fileName != name
      {
        DistinctFramesDistinctPlans(f, x, layout, total, prefix, false, oscWidth,
                                    angleNumber, angleNumber);
      }
      assert WrittenFiles(frames, layout, total, prefix, false, oscWidth, angleNumber)
             == WrittenFiles(rest, layout, total, prefix, false, oscWidth, angleNumber) + {name};
    }
  }

  /** A default run over a file of `total` frames, without renumbering,
      writes `total` distinct files. */
  lemma DefaultRunWritesEveryFrame(total: int, layout: Layout, prefix: string,
                                   oscWidth: real, angleNumber: int)
    requires layout.perBlock > 0
    ensures total >= 1 ==>
              |WrittenFiles(Frames(FrameRange(NotGiven, NotGiven, total)), layout, total,
                            prefix, false, oscWidth, angleNumber)| == total
  {
    var frames := Frames(FrameRange(NotGiven, NotGiven, total));
    DefaultRangeSize(total);
    OneFilePerFrame(frames, layout, total, prefix, oscWidth, angleNumber);
  }
}
