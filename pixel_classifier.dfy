/** The per-pixel classification that turns the raw unsigned frame into the
    signed array written to the CBF file: -1 for a dead or gap pixel, -2 for
    a pixel with another defect flag, otherwise the raw count. */
module PixelClassifier {
  import opened Wrappers
  import opened CInts

  /** Slot 0 of the mask buffer is set to this before the mask is read; if
      it is still there afterwards the mask is taken to be absent. */
  const MaskAbsent: int := -9999

  const Undefined: int := -1
  const MaskedOverload: int := -2

  predicate MaskPresent(mask: seq<i32>)
  {
    |mask| > 0 && mask[0] != MaskAbsent
  }

  /** The mask buffer after lines 355-356: slot 0 is set to the sentinel and
      a successful read then replaces the whole buffer. When the read fails
      the other slots keep whatever the buffer held. */
  function LoadedMask(buffer: seq<i32>, reading: Option<seq<i32>>): (mask: seq<i32>)
    requires |buffer| > 0
    requires reading.Some? ==> |reading.value| == |buffer|
    ensures |mask| == |buffer|
    ensures reading.None? ==> mask[0] == MaskAbsent && mask[1..] == buffer[1..]
    ensures reading.Some? ==> mask == reading.value
  {
    match reading
    case None => [MaskAbsent as i32] + buffer[1..]
    case Some(m) => m
  }

  /** Lines 355-356 on the mask buffer: write the sentinel into slot 0, then
      let a successful read fill the buffer. */
  method LoadPixelMask(pixelMask: array<i32>, reading: Option<seq<i32>>)
    requires pixelMask.Length > 0
    requires reading.Some? ==> |reading.value| == pixelMask.Length
    modifies pixelMask
    ensures pixelMask[..] == LoadedMask(old(pixelMask[..]), reading)
  {
    pixelMask[0] := MaskAbsent;
    if reading.Some? {
      var m := reading.value;
      forall i | 0 <= i < pixelMask.Length {
        pixelMask[i] := m[i];
      }
    }
  }

  /** The mask is present exactly when it was read and its first pixel does
      not happen to equal the sentinel. */
  lemma LoadedMaskPresence(buffer: seq<i32>, reading: Option<seq<i32>>)
    requires |buffer| > 0
    requires reading.Some? ==> |reading.value| == |buffer|
    ensures MaskPresent(LoadedMask(buffer, reading)) <==>
              reading.Some? && reading.value[0] != MaskAbsent
  {
  }

  /** One pixel (lines 546-557): the mask decides when it is present; only
      without a mask is a raw value equal to `errorVal` taken as dead. */
  function ClassifyPixel(raw: u32, present: bool, flag: i32, errorVal: u32): (p: i32)
    ensures present && flag == 1 ==> p == Undefined
    ensures present && flag > 1 ==> p == MaskedOverload
    ensures present && flag < 1 ==> p == ToSigned32(raw)
    ensures !present && raw == errorVal ==> p == Undefined
    ensures !present && raw != errorVal ==> p == ToSigned32(raw)
  {
    if (present && flag == 1) || (!present && raw == errorVal) then Undefined
    else if present && flag > 1 then MaskedOverload
    else ToSigned32(raw)
  }

  /** The classified frame, pixel by pixel. */
  function Classified(raw: seq<u32>, mask: seq<i32>, errorVal: u32): (out: seq<i32>)
    requires |raw| == |mask|
    ensures |out| == |raw|
    ensures forall i :: 0 <= i < |out| ==>
              out[i] == Undefined || out[i] == MaskedOverload || out[i] == ToSigned32(raw[i])
  {
    seq(|raw|, i requires 0 <= i < |raw| => ClassifyPixel(raw[i], MaskPresent(mask), mask[i], errorVal))
  }

  /** The conversion loop of lines 544-559, in place on `bufSigned`. */
  method ClassifyFrame(buf: array<u32>, pixelMask: array<i32>, errorVal: u32, bufSigned: array<i32>)
    requires buf.Length == pixelMask.Length == bufSigned.Length
    requires pixelMask != bufSigned
    modifies bufSigned
    ensures bufSigned[..] == Classified(buf[..], pixelMask[..], errorVal)
    ensures buf[..] == old(buf[..]) && pixelMask[..] == old(pixelMask[..])
  {
    var n := bufSigned.Length;
    var i := 0;
    while i < n
      invariant 0 <= i <= n
      invariant forall k :: 0 <= k < i ==>
                  bufSigned[k] == ClassifyPixel(buf[k], MaskPresent(pixelMask[..]), pixelMask[k], errorVal)
    {
      if (pixelMask[0] != MaskAbsent && pixelMask[i] == 1) ||
         (pixelMask[0] == MaskAbsent && buf[i] == errorVal) {
        bufSigned[i] := Undefined;
      } else if pixelMask[0] != MaskAbsent && pixelMask[i] > 1 {
        bufSigned[i] := MaskedOverload;
      } else {
        bufSigned[i] := ToSigned32(buf[i]);
      }
      i := i + 1;
    }
  }

  /** With a mask, flag 1 gives -1 and a flag above 1 gives -2 whatever the
      raw value; any other flag keeps the raw value, even one equal to
      `errorVal`. */
  lemma MaskDecides(raw: seq<u32>, mask: seq<i32>, errorVal: u32, i: int)
    requires |raw| == |mask| && MaskPresent(mask) && 0 <= i < |raw|
    ensures mask[i] == 1 ==> Classified(raw, mask, errorVal)[i] == Undefined
    ensures mask[i] > 1 ==> Classified(raw, mask, errorVal)[i] == MaskedOverload
    ensures mask[i] < 1 ==> Classified(raw, mask, errorVal)[i] == ToSigned32(raw[i])
  {
  }

  /** Without a mask, exactly the pixels equal to `errorVal` become -1 and
      every other pixel keeps its raw value. */
  lemma NoMaskUsesErrorVal(raw: seq<u32>, mask: seq<i32>, errorVal: u32, i: int)
    requires |raw| == |mask| && !MaskPresent(mask) && 0 <= i < |raw|
    ensures raw[i] == errorVal ==> Classified(raw, mask, errorVal)[i] == Undefined
    ensures raw[i] != errorVal ==> Classified(raw, mask, errorVal)[i] == ToSigned32(raw[i])
  {
  }

  /** Without a mask, the rest of the mask buffer (uninitialised memory in
      the source) has no effect on the output. */
  lemma AbsentMaskContentsIgnored(raw: seq<u32>, mask1: seq<i32>, mask2: seq<i32>, errorVal: u32)
    requires |raw| == |mask1| == |mask2|
    requires !MaskPresent(mask1) && !MaskPresent(mask2)
    ensures Classified(raw, mask1, errorVal) == Classified(raw, mask2, errorVal)
  {
    var a, b := Classified(raw, mask1, errorVal), Classified(raw, mask2, errorVal);
    assert forall i :: 0 <= i < |raw| ==> a[i] == b[i];
  }

  /** For raw counts below 2^31 a negative output is always a sentinel, and
      the sentinels mark exactly the flagged pixels. */
  lemma SentinelsUnambiguous(raw: seq<u32>, mask: seq<i32>, errorVal: u32, i: int)
    requires |raw| == |mask| && 0 <= i < |raw| && raw[i] < TWO31
    ensures var out := Classified(raw, mask, errorVal)[i];
            (out < 0 <==> (MaskPresent(mask) && mask[i] >= 1) || (!MaskPresent(mask) && raw[i] == errorVal))
            && (out >= 0 ==> out == raw[i])
  {
  }

  /** A raw count of 2^32 - 2 without a mask comes out as -2 through the
      signed conversion, indistinguishable from a masked pixel. */
  lemma WrappedCountLooksMasked(raw: seq<u32>, mask: seq<i32>, errorVal: u32, i: int)
    requires |raw| == |mask| && !MaskPresent(mask) && 0 <= i < |raw|
    requires raw[i] == TWO32 - 2 && errorVal != raw[i]
    ensures Classified(raw, mask, errorVal)[i] == MaskedOverload
  {
  }

  /** 4-bit frame without a mask: the value 15 marks dead pixels. */
  lemma NoMaskExample(junk: seq<i32>)
    requires |junk| == 4 && !MaskPresent(junk)
    ensures Classified([0, 15, 3, 15], junk, 15) == [0, -1, 3, -1]
  {
  }

  /** With the mask [0, 2, 1, 0] a flat frame of fives becomes [5, -2, -1, 5]. */
  lemma MaskExample(errorVal: u32)
    ensures Classified([5, 5, 5, 5], [0, 2, 1, 0], errorVal) == [5, -2, -1, 5]
  {
  }
}
