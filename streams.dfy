/**
 * The seekable stream the engine reads through (the `IFileStream` interface),
 * modelled over the file's bytes. The environment appends to or truncates
 * `data` between calls; nothing in the engine writes it.
 */
module Streams {
  import opened Wrappers
  import opened Lines

  datatype SeekOrigin = Begin | Current | End

  class ByteStream {
    /** The file's current contents. */
    var data: seq<byte>
    /** The stream position; a stream can never be positioned before offset 0. */
    var position: nat
    /** True once Dispose has closed the handle. */
    var disposed: bool

    /** Opens a stream on `contents`, positioned at its start. */
    constructor (contents: seq<byte>)
      ensures data == contents && position == 0 && !disposed
    {
      data, position, disposed := contents, 0, false;
    }

    /** The absolute offset that `Seek(offset, origin)` aims at. */
    function Target(offset: int, origin: SeekOrigin): int
      reads this
    {
      match origin
      case Begin => offset
      case Current => position + offset
      case End => |data| + offset
    }

    /**
     * `Stream.Seek`: moves to the target and returns it. A closed stream throws
     * ObjectDisposedException and a negative target throws IOException; either
     * way the position is unchanged. Seeking past the end is allowed.
     */
    method Seek(offset: int, origin: SeekOrigin) returns (r: Result<int>)
      modifies this`position
      ensures var t := old(Target(offset, origin));
        && r == (if old(disposed) then Failure(StreamDisposed)
                 else if t < 0 then Failure(SeekBeforeBegin)
                 else Success(t))
        && position == (if r.Success? then t else old(position))
    {
      var t := Target(offset, origin);
      if disposed {
        r := Failure(StreamDisposed);
      } else if t < 0 {
        r := Failure(SeekBeforeBegin);
      } else {
        position := t;
        r := Success(t);
      }
    }

    /**
     * `Stream.Read` into the first `count` cells of `buffer`: copies what the
     * file holds from the position on, up to `count` bytes, advances the
     * position past them and returns how many it copied.
     */
    method Read(buffer: array<byte>, count: nat) returns (n: nat)
      requires !disposed && count <= buffer.Length
      modifies buffer, this`position
      ensures n == (if |data| - old(position) < 0 then 0
                    else if |data| - old(position) < count then |data| - old(position)
                    else count)
      ensures old(position) + n <= |data| || n == 0
      ensures n > 0 ==> buffer[..n] == data[old(position)..old(position) + n]
      ensures buffer[n..] == old(buffer[n..])
      ensures position == old(position) + n
    {
      var left := |data| - position;
      n := if left < 0 then 0 else if left < count then left else count;
      forall i | 0 <= i < n {
        buffer[i] := data[position + i];
      }
      position := position + n;
    }

    /** Closes the handle; closing twice is harmless. */
    method Dispose()
      modifies this`disposed
      ensures disposed
    {
      disposed := true;
    }
  }
}
