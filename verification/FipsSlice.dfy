/** `read_fips_test_slice`: a zero-copy view of manifest ++ fmc ++ runtime. */
module FipsSlice {
  import opened Common

  /** `slice.get(from..to)` */
  function Get(s: seq<Byte>, from: nat, to: nat): Option<seq<Byte>> {
    if from <= to <= |s| then Some(s[from..to]) else None
  }

  /** The source, in the 32-bit arithmetic of the target; None is DIGEST_OUT_OF_BOUNDS. */
  function ReadSlice(manifest: seq<Byte>, fmc: seq<Byte>, runtime: seq<Byte>, offset: Word, len: Word): Option<seq<Byte>>
    requires |manifest| + |fmc| + |runtime| < TWO_TO_THE_32
  {
    var total := |manifest| + |fmc| + |runtime|;
    var end := WrappingAdd(offset, len);
    if offset >= total || end > total then None
    else if end <= |manifest| then Get(manifest, offset, end)
    else if offset >= |manifest| && end <= |manifest| + |fmc| then
      var fmcOffset := offset - |manifest|;
      Get(fmc, fmcOffset, WrappingAdd(fmcOffset, len))
    else if offset >= |manifest| + |fmc| then
      var rtOffset := offset - |manifest| - |fmc|;
      Get(runtime, rtOffset, WrappingAdd(rtOffset, len))
    else None
  }

  /** A component boundary strictly inside the range. */
  predicate Spans(boundary: nat, offset: nat, len: nat) {
    offset < boundary < offset + len
  }

  /**
    Success means exactly this: the range starts inside the image, fits without wrapping, and spans no
    boundary; and then the slice is the slice of the concatenation.
   */
  lemma RefinesConcatenation(manifest: seq<Byte>, fmc: seq<Byte>, runtime: seq<Byte>, offset: Word, len: Word)
    requires |manifest| + |fmc| + |runtime| < TWO_TO_THE_32
    ensures var image := manifest + fmc + runtime;
            var r := ReadSlice(manifest, fmc, runtime, offset, len);
            && (r.Some? <==>
                && offset < |image| && offset + len <= |image|
                && !Spans(|manifest|, offset, len) && !Spans(|manifest| + |fmc|, offset, len))
            && (r.Some? ==> r.value == image[offset..offset + len])
  {
    var image := manifest + fmc + runtime;
    var total := |image|;
    if offset < total && offset + len <= total {
      assert WrappingAdd(offset, len) == offset + len;
      if offset + len <= |manifest| {
        assert image[offset..offset + len] == manifest[offset..offset + len];
      } else if offset >= |manifest| && offset + len <= |manifest| + |fmc| {
        assert image[offset..offset + len] == fmc[offset - |manifest|..offset - |manifest| + len];
      } else if offset >= |manifest| + |fmc| {
        var rt := offset - |manifest| - |fmc|;
        assert image[offset..offset + len] == runtime[rt..rt + len];
      }
    } else if offset < total && offset + len >= TWO_TO_THE_32 {
      WrappedRangeFails(manifest, fmc, runtime, offset, len);
    }
  }

  /** A wrapped end lies before the start, so the final bounds-checked lookup refuses it. */
  lemma WrappedRangeFails(manifest: seq<Byte>, fmc: seq<Byte>, runtime: seq<Byte>, offset: Word, len: Word)
    requires |manifest| + |fmc| + |runtime| < TWO_TO_THE_32 <= offset + len
    ensures ReadSlice(manifest, fmc, runtime, offset, len).None?
  {
    assert WrappingAdd(offset, len) == offset + len - TWO_TO_THE_32 < offset;
    if offset >= |manifest| {
      var o := offset - |manifest|;
      assert WrappingAdd(o, len) < o || WrappingAdd(o, len) == o + len;
    }
    if offset >= |manifest| + |fmc| {
      var o := offset - |manifest| - |fmc|;
      assert WrappingAdd(o, len) < o || WrappingAdd(o, len) == o + len;
    }
  }
}
