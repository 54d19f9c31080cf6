/** `set_output`: copying a result into the front of a caller-supplied buffer. */
module Output {
  import opened Types

  /** The buffer after `slice` is copied into its first `|slice|` bytes. */
  function CopyPrefix(buffer: Bytes, slice: Bytes): (r: Bytes)
    requires |slice| <= |buffer|
    ensures |r| == |buffer|
    ensures r[..|slice|] == slice
    ensures r[|slice|..] == buffer[|slice|..]
  {
    slice + buffer[|slice|..]
  }

  /** `set_output`: the slice must fit (the source asserts it); the bytes past it stay as
      they were. */
  method SetOutput(output: array<u8>, slice: Bytes)
    requires |slice| <= output.Length
    modifies output
    ensures output[..] == CopyPrefix(old(output[..]), slice)
  {
    forall i | 0 <= i < |slice| {
      output[i] := slice[i];
    }
    assert output[..] == CopyPrefix(old(output[..]), slice);
  }
}
