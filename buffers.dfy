/** The plain byte buffers of the tool's C interface (`buffer<char>` and the
    buffer of buffer pointers that carries the voter roll), and the copies
    between them and blobs (`blob_to_buffer`, `buffer_to_blob`,
    `super_buffer_to_blobs`). */
module Buffers {
  import opened Common

  /** `buffer<char>`: a declared size and a pointer to storage. */
  datatype Buffer = Buffer(size: nat, ptr: array<byte>)

  /** `buffer<buffer<char>* const>`: a declared count and an array of buffers. */
  datatype SuperBuffer = SuperBuffer(size: nat, ptr: array<Buffer>)

  /** The declared size does not exceed the storage behind the pointer. */
  predicate InBounds(b: Buffer)
  {
    b.size <= b.ptr.Length
  }

  /** The octets a buffer declares. */
  ghost function Contents(b: Buffer): seq<byte>
    requires InBounds(b)
    reads b.ptr
  {
    b.ptr[..b.size]
  }

  /** `blob_to_buffer`: a freshly allocated buffer of the blob's length
      holding a copy of the blob. */
  method BlobToBuffer(blob: seq<byte>) returns (buf: Buffer)
    ensures fresh(buf.ptr)
    ensures buf.size == |blob| == buf.ptr.Length
    ensures InBounds(buf) && Contents(buf) == blob
  {
    var ptr := new byte[|blob|];
    var i := 0;
    while i < |blob|
      invariant 0 <= i <= |blob|
      invariant ptr[..i] == blob[..i]
      modifies ptr
    {
      ptr[i] := blob[i];
      i := i + 1;
    }
    buf := Buffer(|blob|, ptr);
    assert ptr[..] == ptr[..i];
  }

  /** `buffer_to_blob`: the `size` octets the buffer declares. The source
      trusts `size`, so it must not exceed the storage. */
  method BufferToBlob(buf: Buffer) returns (blob: seq<byte>)
    requires InBounds(buf)
    ensures |blob| == buf.size
    ensures forall i :: 0 <= i < buf.size ==> blob[i] == buf.ptr[i]
  {
    blob := buf.ptr[..buf.size];
  }

  /** Every buffer a super buffer declares is within its storage. */
  predicate SuperInBounds(sb: SuperBuffer)
    reads sb.ptr
  {
    && sb.size <= sb.ptr.Length
    && forall i :: 0 <= i < sb.size ==> InBounds(sb.ptr[i])
  }

  /** `super_buffer_to_blobs`: one blob per declared buffer, in order, each
      holding exactly the octets its buffer declares. */
  method SuperBufferToBlobs(sb: SuperBuffer) returns (blobs: seq<seq<byte>>)
    requires SuperInBounds(sb)
    ensures |blobs| == sb.size
    ensures forall i :: 0 <= i < sb.size ==> blobs[i] == sb.ptr[i].ptr[..sb.ptr[i].size]
  {
    blobs := [];
    var i := 0;
    while i < sb.size
      invariant 0 <= i <= sb.size
      invariant |blobs| == i
      invariant forall k :: 0 <= k < i ==> blobs[k] == sb.ptr[k].ptr[..sb.ptr[k].size]
    {
      var blob := BufferToBlob(sb.ptr[i]);
      blobs := blobs + [blob];
      i := i + 1;
    }
  }

  /** A blob handed across the C interface and read back is unchanged:
      what `blob_to_buffer` produces, `buffer_to_blob` returns intact. */
  method BlobBufferRoundTrip(blob: seq<byte>) returns (back: seq<byte>)
    ensures back == blob
  {
    var buf := BlobToBuffer(blob);
    back := BufferToBlob(buf);
  }
}
