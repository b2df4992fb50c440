/** What a match does in both compressed formats. */
module Copying {
  import opened Bits

  /** Copies `len` bytes from `dist` back in the output, one by one, so that the source may
      overlap what it produces. */
  function CopyMatch(out: seq<byte>, dist: nat, len: nat): (r: seq<byte>)
    requires 1 <= dist <= |out|
    ensures |r| == |out| + len && out <= r
    decreases len
  {
    if len == 0 then out else CopyMatch(out + [out[|out| - dist]], dist, len - 1)
  }
}
