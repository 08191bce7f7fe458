/**
 * `FileSeeker`: finds line boundaries by reading a stream backwards in fixed-size
 * chunks through a scratch buffer that the seeker keeps between calls.
 */
module Seeking {
  import opened Lines
  import opened Streams

  /** Chunk size of the backward search. */
  const Steps := 80

  class FileSeeker {
    /** The chunk buffer, allocated on first use and reallocated when the chunk size changes. */
    var buffer: array?<byte>

    constructor ()
      ensures buffer == null
    {
      buffer := null;
    }

    /**
     * Walks backwards from the stream position, `steps` bytes at a time, to the
     * last line feed below that position and leaves the stream on it. When there
     * is none (or a chunk read comes back short) the stream goes back to where it
     * started. The answer does not depend on `steps`.
     */
    method SeekNextLineFeedInNegativeDirectionAndPositionStreamOnIt(stream: ByteStream, steps: int)
      returns (found: bool)
      requires steps > 0 && !stream.disposed
      modifies this, buffer, stream`position
      ensures buffer != null && buffer.Length == steps
      ensures buffer == old(buffer) || fresh(buffer)
      ensures var j := PrevLineFeed(stream.data, old(stream.position));
        found == (j >= 0) && stream.position == (if found then j else old(stream.position))
    {
      if buffer == null || buffer.Length != steps {
        buffer := new byte[steps];
      }
      var chunk := buffer;
      var initial := stream.position;
      ghost var data := stream.data;
      found := false;

      while true
        invariant chunk == buffer && chunk.Length == steps
        invariant buffer == old(buffer) || fresh(buffer)
        invariant stream.data == data && !stream.disposed
        invariant stream.position <= initial
        invariant initial <= |data| ==> forall k :: stream.position <= k < initial ==> data[k] != LF
        invariant initial > |data| ==> stream.position == initial
        decreases stream.position
      {
        var current := stream.position;
        if current == 0 {
          break;
        }
        var toRead := steps;
        if toRead > current {
          toRead := current;  // the last chunk, at the start of the file, is shorter
        }
        var _ := stream.Seek(-toRead, SeekOrigin.Current);
        var size := stream.Read(chunk, toRead);
        if size != toRead {
          break;
        }
        ghost var got := chunk[..toRead];
        assert got == data[current - toRead..current];
        var index := LastIndexOf(chunk[..toRead], LF);
        ChunkScanned(data, initial, current, toRead, index);
        if index >= 0 {
          var newPos := toRead - index;
          var _ := stream.Seek(-newPos, SeekOrigin.Current);
          found := true;
          return;
        }
        var _ := stream.Seek(-toRead, SeekOrigin.Current);
      }

      var _ := stream.Seek(initial, SeekOrigin.Begin);
      if initial <= |data| {
        LastIndexOfDetermined(data[..initial], LF, -1);
      }
    }

    /** One chunk of the backward search: if the chunk `data[current - toRead..current]`
        has its last LF at `index`, that is the last LF below `initial`; if it has none,
        the LF-free stretch below `initial` grows by the chunk. */
    static lemma ChunkScanned(data: seq<byte>, initial: int, current: int, toRead: int, index: int)
      requires 0 < toRead <= current <= initial <= |data|
      requires forall k :: current <= k < initial ==> data[k] != LF
      requires index == LastIndexOf(data[current - toRead..current], LF)
      ensures index >= 0 ==> PrevLineFeed(data, initial) == current - toRead + index
      ensures index < 0 ==> forall k :: current - toRead <= k < initial ==> data[k] != LF
    {
      var base := current - toRead;
      var c := data[base..current];
      if index >= 0 {
        assert data[..initial][base + index] == c[index];
        forall k | base + index < k < initial
          ensures data[..initial][k] != LF
        {
          if k < current { assert data[k] == c[k - base]; }
        }
        LastIndexOfDetermined(data[..initial], LF, base + index);
      } else {
        forall k | base <= k < current
          ensures data[k] != LF
        {
          assert data[k] == c[k - base];
        }
      }
    }

    /**
     * Positions the stream on the start of the line that ends at the last line
     * feed before the current position. Returns false, with the position
     * unchanged, when no line feed precedes it; otherwise returns true and leaves
     * the stream just after the line feed before that one, or at 0 when there is
     * no earlier one.
     */
    method SeekLastLineFromCurrentAndPositionOnStartOfIt(stream: ByteStream) returns (found: bool)
      requires !stream.disposed
      modifies this, buffer, stream`position
      ensures buffer != null && buffer.Length == Steps
      ensures buffer == old(buffer) || fresh(buffer)
      ensures var r := LineStartBefore(stream.data, old(stream.position));
        found == (r >= 0) && stream.position == (if found then r else old(stream.position))
    {
      var found1 := SeekNextLineFeedInNegativeDirectionAndPositionStreamOnIt(stream, Steps);
      if !found1 {
        return false;
      }
      var found2 := SeekNextLineFeedInNegativeDirectionAndPositionStreamOnIt(stream, Steps);
      if found2 {
        var _ := stream.Seek(1, SeekOrigin.Current);
      } else {
        var _ := stream.Seek(0, SeekOrigin.Begin);
      }
      found := true;
    }
  }
}
