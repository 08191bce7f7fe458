/**
 * `FileReadOnlyWrapper`: one open log file, its read cursor and its reusable
 * read buffer. Each method is proved to perform exactly the step of the value
 * model in tailing.dfy, where the properties of those steps are proved.
 */
module Reader {
  import opened Wrappers
  import opened Lines
  import opened Streams
  import opened Seeking
  import opened Tailing

  class FileReadOnlyWrapper {
    const fileName: string
    /** The read-only handle on the file. */
    const stream: ByteStream
    /** The seeker the stream wrapper uses for backward line search. */
    const seeker: FileSeeker
    /** `_currentPosition`: start of the next unread line, -1 while not established. */
    var cursor: int
    /** `_localBuffer`: the buffer reads go through, kept between calls. */
    var localBuffer: array?<byte>
    /** `_reallocateCounter`: consecutive calls for which the buffer was over twice too big. */
    var reallocateCounter: int

    ghost var Repr: set<object>

    /** The objects the reader currently uses. */
    ghost function Footprint(): set<object>
      reads this, seeker
    {
      {this, stream, seeker}
      + (if seeker.buffer == null then {} else {seeker.buffer})
      + (if localBuffer == null then {} else {localBuffer})
    }

    ghost predicate Valid()
      reads this, Repr
    {
      && this in Repr && seeker in Repr
      && Footprint() <= Repr
      && -1 <= cursor
      && 0 <= reallocateCounter <= ReallocateAfterXCountsLowerThan50Percent
    }

    /** The reader as a value. */
    ghost function Model(): ReaderState
      reads this, Repr
      requires Valid()
    {
      ReaderState(stream.data, stream.disposed, cursor,
                  Scratch(if localBuffer == null then None else Some(localBuffer.Length), reallocateCounter))
    }

    /** Opens `fileName`, whose bytes are `contents`, and places the cursor on the
        start of its last complete line (-1 when it has no line feed yet). */
    constructor (fileName: string, contents: seq<byte>)
      ensures Valid() && fresh(Repr)
      ensures this.fileName == fileName && Model() == Opened(contents)
    {
      this.fileName := fileName;
      stream := new ByteStream(contents);
      seeker := new FileSeeker();
      cursor := -1;
      localBuffer := null;
      reallocateCounter := 0;
      new;
      var start := SeekLastLine(stream, seeker);
      cursor := start.value;
      Repr := Footprint();
    }

    /** Closes the stream and sets the cursor to -1. */
    method Dispose()
      requires Valid()
      modifies this, stream
      ensures Valid() && Repr == old(Repr)
      ensures Model() == Disposed(old(Model()))
    {
      stream.Dispose();
      cursor := -1;
    }

    /** Seeks to the end and back to the start of the last complete line; the
        result is that offset, -1 when the file holds no line feed, or the
        exception a closed stream throws. */
    static method SeekLastLine(stream: ByteStream, seeker: FileSeeker) returns (r: Result<int>)
      modifies stream`position, seeker, seeker.buffer
      ensures r == if old(stream.disposed) then Failure(StreamDisposed) else Success(LastLineStart(stream.data))
      ensures seeker.buffer == old(seeker.buffer) || fresh(seeker.buffer)
    {
      var end := stream.Seek(0, SeekOrigin.End);
      if end.Failure? {
        return Failure(end.fault);
      }
      var found := seeker.SeekLastLineFromCurrentAndPositionOnStartOfIt(stream);
      if !found {
        return Success(-1);
      }
      return Success(stream.position);
    }

    /** Makes sure the buffer holds `toRead` bytes, growing it at once and shrinking
        it only after a sustained run of over-sized calls (see Tailing.Reallocate). */
    method CheckIfBufferNeedsReallocation(toRead: int)
      requires Valid() && toRead > 0
      modifies this`localBuffer, this`reallocateCounter, this`Repr
      ensures Valid() && fresh(Repr - old(Repr))
      ensures Model() == old(Model()).(scratch := Reallocate(old(Model()).scratch, toRead))
      ensures localBuffer != null && (localBuffer == old(localBuffer) || fresh(localBuffer))
    {
      if localBuffer == null || localBuffer.Length < toRead {
        localBuffer := new byte[toRead];
        reallocateCounter := 0;
      } else {
        if localBuffer.Length > toRead * 2 {
          reallocateCounter := reallocateCounter + 1;
        } else {
          reallocateCounter := 0;
        }
        if reallocateCounter > ReallocateAfterXCountsLowerThan50Percent {
          reallocateCounter := 0;
          localBuffer := new byte[toRead];
        }
      }
      Repr := Repr + {localBuffer};
    }

    /** Reads the `toRead` bytes at the stream position into the buffer. */
    method FillBuffer(toRead: int)
      requires Valid() && !stream.disposed && localBuffer != null
      requires 0 < toRead <= localBuffer.Length && stream.position + toRead <= |stream.data|
      modifies localBuffer, stream`position
      ensures Valid() && Model() == old(Model())
      ensures stream.position == old(stream.position) + toRead
      ensures localBuffer[..toRead] == stream.data[old(stream.position)..old(stream.position) + toRead]
    {
      var _ := stream.Read(localBuffer, toRead);
    }

    /** Moves the cursor past the last line feed of the `bufferLength` bytes just read
        (at `lastIndex`) and returns those bytes up to and including it. */
    method SetCurrentPositionAndResetBufferIfNeeded(bufferLength: int, lastIndex: int) returns (line: seq<byte>)
      requires Valid() && localBuffer != null && 0 <= lastIndex < bufferLength <= localBuffer.Length
      modifies this`cursor
      ensures Valid() && Model() == old(Model()).(cursor := cursor)
      ensures line == localBuffer[..bufferLength][..lastIndex + 1]
      ensures cursor == if lastIndex + 1 < bufferLength
                        then (if old(cursor) + lastIndex + 1 < 0 then 0 else old(cursor) + lastIndex + 1)
                        else stream.position
    {
      var next := lastIndex + 1;
      if next < bufferLength {
        // The source clamps a negative result to 0.
        cursor := if cursor + next < 0 then 0 else cursor + next;
        line := localBuffer[..next];
      } else {
        cursor := stream.position;
        line := localBuffer[..bufferLength];
      }
    }

    /** One read from the cursor with every exception caught: see Tailing.InternalStep. */
    method InternalReadLineFromCurrentPositionToEnd(maxStringSize: int) returns (r: ReadResult)
      requires Valid()
      modifies Repr
      ensures Valid() && fresh(Repr - old(Repr))
      ensures Model() == InternalStep(old(Model()), maxStringSize).0
      ensures r == InternalStep(old(Model()), maxStringSize).1
    {
      ghost var s := Model();
      var established := EstablishCursor();
      r := Nothing;
      if established {
        InternalStepFromStartCursor(s, maxStringSize);
        r := ReadAtCursor(maxStringSize);
      }
    }

    /** While the cursor is -1, seeks it to the start of the last complete line
        (leaving -1 when there is none); false when that seek threw. */
    method EstablishCursor() returns (established: bool)
      requires Valid()
      modifies Repr
      ensures Valid() && fresh(Repr - old(Repr))
      ensures established ==> !old(stream.disposed) || old(cursor) != -1
      ensures established ==> Model() == old(Model()).(cursor := StartCursor(old(Model())))
      ensures !established ==> old(stream.disposed) && Model() == old(Model())
    {
      established := true;
      if cursor == -1 {
        var start := SeekLastLine(stream, seeker);
        Repr := Repr + Footprint();
        if start.Failure? {
          established := false;
        } else {
          cursor := start.value;
        }
      }
    }

    /** The read once the cursor is established: seek the stream to it, re-establish
        it when the file shrank below it, else read from it. */
    method ReadAtCursor(maxStringSize: int) returns (r: ReadResult)
      requires Valid() && (cursor == -1 ==> LastLineStart(stream.data) == -1)
      modifies Repr
      ensures Valid() && fresh(Repr - old(Repr))
      ensures Model() == InternalStep(old(Model()), maxStringSize).0
      ensures r == InternalStep(old(Model()), maxStringSize).1
    {
      ghost var s := Model();
      r := Nothing;
      var at := stream.Seek(cursor, SeekOrigin.Begin);
      if at.Success? {
        var current := stream.position;
        var maxToRead := |stream.data| - current;
        if maxToRead < 0 {
          var start := SeekLastLine(stream, seeker);
          Repr := Repr + Footprint();
          cursor := start.value;
        } else {
          ReadFromIgnoresCursor(s, current, maxStringSize);
          r := ReadFromCursor(current, maxStringSize);
        }
      }
    }

    /** The read proper, once the stream sits on the cursor: read the capped window
        into the buffer and hand back its bytes up to the last line feed (see
        Tailing.ReadFrom). */
    method ReadFromCursor(current: int, maxStringSize: int) returns (r: ReadResult)
      requires Valid() && !stream.disposed
      requires cursor == current == stream.position && current <= |stream.data|
      modifies Repr
      ensures Valid() && fresh(Repr - old(Repr))
      ensures Model() == ReadFrom(old(Model()), current, maxStringSize).0
      ensures r == ReadFrom(old(Model()), current, maxStringSize).1
    {
      ghost var s := Model();
      var sizeExceeded := BufferSufficient;
      var toRead := |stream.data| - current;
      if toRead > maxStringSize {
        toRead := maxStringSize;
        sizeExceeded := ReadLineContentExceedsSize;
      }
      r := Nothing;
      if toRead > 0 {
        r := ReadWindow(toRead, sizeExceeded);
      }
    }

    /** Reads the `toRead` bytes at the cursor into the buffer and moves the cursor
        past their last line feed, handing back the bytes up to it; with no line
        feed among them nothing is handed back and the cursor stays. */
    method ReadWindow(toRead: int, sizeExceeded: ReadLine) returns (r: ReadResult)
      requires Valid() && !stream.disposed
      requires cursor == stream.position && 0 < toRead && cursor + toRead <= |stream.data|
      modifies Repr
      ensures Valid() && fresh(Repr - old(Repr))
      ensures (Model(), r) == CutWindow(old(Model()), old(cursor), toRead, sizeExceeded)
    {
      ghost var current := cursor;
      ghost var window := stream.data[current..current + toRead];
      ghost var cut := CutWindow(Model(), current, toRead, sizeExceeded);
      CheckIfBufferNeedsReallocation(toRead);
      ghost var s := Model();
      assert s == cut.0.(cursor := current);
      FillBuffer(toRead);
      assert localBuffer[..toRead] == window;
      var lastIndex := LastIndexOf(localBuffer[..toRead], LF);
      r := Nothing;
      if lastIndex >= 0 {
        var line := SetCurrentPositionAndResetBufferIfNeeded(toRead, lastIndex);
        assert Model() == s.(cursor := current + lastIndex + 1);
        r := ReadResult(line, sizeExceeded);
      }
    }

    /**
     * One read for the change handler: see Tailing.ReadStep. When nothing came
     * back the stream is put back on the cursor by a seek that is not guarded, so
     * its exception reaches the caller.
     */
    method ReadLineFromCurrentPositionToEnd(maxStringSize: int) returns (r: Result<ReadResult>)
      requires Valid()
      modifies Repr
      ensures Valid() && fresh(Repr - old(Repr))
      ensures Model() == ReadStep(old(Model()), maxStringSize).0
      ensures r == ReadStep(old(Model()), maxStringSize).1
      ensures r.Success? && r.value.line == [] ==> stream.position == cursor
    {
      var result := InternalReadLineFromCurrentPositionToEnd(maxStringSize);
      if result.line == [] {
        var at := stream.Seek(cursor, SeekOrigin.Begin);
        if at.Failure? {
          return Failure(at.fault);
        }
      }
      r := Success(result);
    }
  }
}
