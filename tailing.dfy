/**
 * The tailing reader (`FileReadOnlyWrapper`) as a state machine over values: its
 * cursor, its scratch buffer and the counter that decides when the buffer
 * shrinks. The class in reader.dfy is proved to follow these steps exactly;
 * the lemmas here say what the steps guarantee.
 */
module Tailing {
  import opened Wrappers
  import opened Lines

  /** After this many consecutive over-sized calls the scratch buffer is released. */
  const ReallocateAfterXCountsLowerThan50Percent := 20

  /** Whether one read fetched everything available or hit the per-call cap. */
  datatype ReadLine = BufferSufficient | ReadLineContentExceedsSize

  /** The bytes one call hands back (the source decodes them to a string) and its flag. */
  datatype ReadResult = ReadResult(line: seq<byte>, sizeExceeded: ReadLine)

  const Nothing := ReadResult([], BufferSufficient)

  /** The reusable read buffer: its length (None before the first allocation) and
      the number of consecutive calls for which it was more than twice too big. */
  datatype Scratch = Scratch(length: Option<nat>, counter: int)

  /** Everything that decides what the next read does: the file's bytes, whether
      the handle is closed, the cursor (-1: not yet established) and the buffer. */
  datatype ReaderState = ReaderState(data: seq<byte>, disposed: bool, cursor: int, scratch: Scratch)

  /** The buffer rule applied before reading `toRead` bytes. */
  function Reallocate(b: Scratch, toRead: int): (r: Scratch)
    requires toRead > 0
    // the buffer is always big enough afterwards, and is only ever replaced by one of exactly toRead bytes
    ensures r.length.Some? && r.length.value >= toRead
    ensures r.length == b.length || r.length == Some(toRead)
    // a missing or too-small buffer is replaced at once and the counter restarts
    ensures (b.length.None? || b.length.value < toRead) ==> r == Scratch(Some(toRead), 0)
    // the counter only counts calls on which the buffer was kept and was more than twice too big
    ensures r.counter != 0 ==> r.length == b.length && b.length.value > 2 * toRead && r.counter == b.counter + 1
    // a big-enough buffer is only shrunk on the call after 20 over-sized ones in a row
    ensures b.length.Some? && b.length.value >= toRead && r.length != b.length ==>
              b.counter >= ReallocateAfterXCountsLowerThan50Percent && b.length.value > 2 * toRead
              && r == Scratch(Some(toRead), 0)
    // the counter stays within 0..20
    ensures 0 <= b.counter <= ReallocateAfterXCountsLowerThan50Percent ==>
              0 <= r.counter <= ReallocateAfterXCountsLowerThan50Percent
  {
    if b.length.None? || b.length.value < toRead then Scratch(Some(toRead), 0)
    else
      var counter := if b.length.value > toRead * 2 then b.counter + 1 else 0;
      if counter > ReallocateAfterXCountsLowerThan50Percent then Scratch(Some(toRead), 0)
      else Scratch(b.length, counter)
  }

  /** The buffer after a run of calls with the given read sizes. */
  function ReallocateAll(b: Scratch, sizes: seq<int>): Scratch
    requires forall i :: 0 <= i < |sizes| ==> sizes[i] > 0
    decreases sizes
  {
    if sizes == [] then b else ReallocateAll(Reallocate(b, sizes[0]), sizes[1..])
  }

  /** While every request needs less than half of a buffer of `len` bytes, the buffer is
      kept and the counter climbs by one per call, for as long as it stays within 20. */
  lemma {:induction false} OverSizedCallsKeepBuffer(b: Scratch, sizes: seq<int>)
    requires b.length.Some? && 0 <= b.counter
    requires b.counter + |sizes| <= ReallocateAfterXCountsLowerThan50Percent
    requires forall i :: 0 <= i < |sizes| ==> 0 < sizes[i] && b.length.value > 2 * sizes[i]
    ensures ReallocateAll(b, sizes) == Scratch(b.length, b.counter + |sizes|)
    decreases sizes
  {
    if sizes != [] {
      var b1 := Reallocate(b, sizes[0]);
      assert b1 == Scratch(b.length, b.counter + 1);
      OverSizedCallsKeepBuffer(b1, sizes[1..]);
    }
  }

  /** A sustained drop: starting from a fresh count, 20 over-sized calls keep the big
      buffer and the 21st replaces it by one of exactly the size it asked for. */
  lemma ShrinksOnTwentyFirstOverSizedCall(b: Scratch, sizes: seq<int>)
    requires b.length.Some? && b.counter == 0
    requires |sizes| == ReallocateAfterXCountsLowerThan50Percent + 1
    requires forall i :: 0 <= i < |sizes| ==> 0 < sizes[i] && b.length.value > 2 * sizes[i]
    ensures ReallocateAll(b, sizes[..|sizes| - 1]) == Scratch(b.length, ReallocateAfterXCountsLowerThan50Percent)
    ensures ReallocateAll(b, sizes) == Scratch(Some(sizes[|sizes| - 1]), 0)
  {
    var n := |sizes| - 1;
    OverSizedCallsKeepBuffer(b, sizes[..n]);
    ReallocateAllSplit(b, sizes, n);
    var last := sizes[n..];
    assert last == [sizes[n]] && last[1..] == [];
  }

  lemma {:induction false} ReallocateAllSplit(b: Scratch, sizes: seq<int>, n: nat)
    requires n <= |sizes|
    requires forall i :: 0 <= i < |sizes| ==> sizes[i] > 0
    ensures ReallocateAll(b, sizes) == ReallocateAll(ReallocateAll(b, sizes[..n]), sizes[n..])
    decreases n
  {
    if n > 0 {
      assert sizes[..n][1..] == sizes[1..][..n - 1];
      assert sizes[n..] == sizes[1..][n - 1..];
      ReallocateAllSplit(Reallocate(b, sizes[0]), sizes[1..], n - 1);
    } else {
      assert sizes[n..] == sizes;
    }
  }

  /** The state right after the file is opened: the cursor on the start of the last
      complete line (or -1), no buffer yet. */
  function Opened(contents: seq<byte>): (s: ReaderState)
    ensures !s.disposed && s.data == contents && s.scratch == Scratch(None, 0)
    ensures s.cursor == LastLineStart(contents)
  {
    ReaderState(contents, false, LastLineStart(contents), Scratch(None, 0))
  }

  /** The cursor a read starts from: a cursor of -1 is first re-established from the end of file. */
  function StartCursor(s: ReaderState): int {
    if s.cursor == -1 then LastLineStart(s.data) else s.cursor
  }

  /**
   * `InternalReadLineFromCurrentPositionToEnd(max)`: one read with every
   * exception caught. Returns the state afterwards and the bytes handed back.
   */
  function InternalStep(s: ReaderState, max: int): (ReaderState, ReadResult) {
    if s.disposed then (s, Nothing)                      // the first seek throws; caught
    else
      var c := StartCursor(s);
      if c < 0 then (s.(cursor := c), Nothing)            // seek to -1 throws; caught
      else if |s.data| - c < 0 then                        // the file shrank below the cursor
        (s.(cursor := LastLineStart(s.data)), Nothing)
      else ReadFrom(s, c, max)
  }

  /** The internal read is the same once a cursor of -1 has been set to the start
      of the last complete line. */
  lemma InternalStepFromStartCursor(s: ReaderState, max: int)
    requires !s.disposed || s.cursor != -1
    ensures InternalStep(s.(cursor := StartCursor(s)), max) == InternalStep(s, max)
  {
    var c := StartCursor(s);
    if s.cursor == -1 && c >= 0 && |s.data| - c >= 0 {
      ReadFromIgnoresCursor(s, c, max);
    }
  }

  /** The part of a read after the cursor `c` has been found inside the file:
      read the capped window from c and cut it after its last line feed. */
  function ReadFrom(s: ReaderState, c: int, max: int): (ReaderState, ReadResult)
    requires 0 <= c <= |s.data|
  {
    var available := |s.data| - c;
    var toRead := if available > max then max else available;
    if toRead <= 0 then (s.(cursor := c), Nothing)
    else CutWindow(s, c, toRead, if available > max then ReadLineContentExceedsSize else BufferSufficient)
  }

  /** The `toRead` bytes from `c` go through the scratch buffer and are cut after
      their last line feed: the bytes through it are handed back, flagged with
      `exceeded`, and the cursor moves past it; with no line feed nothing is
      handed back and the cursor stays on `c`. */
  function CutWindow(s: ReaderState, c: int, toRead: int, exceeded: ReadLine): (ReaderState, ReadResult)
    requires 0 <= c && 0 < toRead && c + toRead <= |s.data|
  {
    var scratch := Reallocate(s.scratch, toRead);
    var window := s.data[c..c + toRead];
    var i := LastIndexOf(window, LF);
    if i < 0 then (s.(cursor := c, scratch := scratch), Nothing)
    else (s.(cursor := c + i + 1, scratch := scratch), ReadResult(window[..i + 1], exceeded))
  }

  /** The read from c does not depend on the cursor it replaces. */
  lemma ReadFromIgnoresCursor(s: ReaderState, c: int, max: int)
    requires 0 <= c <= |s.data|
    ensures ReadFrom(s.(cursor := c), c, max) == ReadFrom(s, c, max)
  {
  }

  /**
   * `ReadLineFromCurrentPositionToEnd(max)`: the internal read, then, when it
   * handed back nothing, a seek to the cursor that is NOT guarded, so a closed
   * stream or a cursor of -1 makes the exception escape to the caller.
   */
  function ReadStep(s: ReaderState, max: int): (ReaderState, Result<ReadResult>) {
    var (s1, res) := InternalStep(s, max);
    if res.line != [] then (s1, Success(res))
    else if s1.disposed then (s1, Failure(StreamDisposed))
    else if s1.cursor < 0 then (s1, Failure(SeekBeforeBegin))
    else (s1, Success(res))
  }

  /** `Dispose`: closes the stream and drops the cursor to -1. */
  function Disposed(s: ReaderState): (r: ReaderState)
    ensures r.disposed && r.cursor == -1 && r.data == s.data && r.scratch == s.scratch
  {
    s.(disposed := true, cursor := -1)
  }

  // ---------------------------------------------------------------------------
  // What one read guarantees

  /**
   * A read that hands back bytes started from a valid cursor c, returns exactly
   * the bytes from c up to and including the last line feed of its window
   * [c, c + min(available, max)), and moves the cursor just past that line feed.
   * What is left of the window is an unterminated fragment. The flag says
   * whether the window was capped, and a capped read returns at most max bytes.
   */
  lemma DeliveredReadIsCompleteLines(s: ReaderState, max: int)
    requires !s.disposed
    requires InternalStep(s, max).1.line != []
    ensures var (s1, res) := InternalStep(s, max);
      var c := StartCursor(s);
      var available := |s.data| - c;
      var windowEnd := if available > max then c + max else |s.data|;
      && 0 <= c < s1.cursor <= windowEnd <= |s.data|
      && res.line == s.data[c..s1.cursor]
      && s.data[s1.cursor - 1] == LF
      && NoLineFeed(s.data[s1.cursor..windowEnd])
      && (res.sizeExceeded == ReadLineContentExceedsSize <==> available > max)
      && |res.line| <= max
      && s1.data == s.data && !s1.disposed
      && ReadStep(s, max) == (s1, Success(res))
  {
    var c := StartCursor(s);
    assert 0 <= c <= |s.data| && InternalStep(s, max) == ReadFrom(s, c, max);
    var available := |s.data| - c;
    var toRead := if available > max then max else available;
    var exceeded := if available > max then ReadLineContentExceedsSize else BufferSufficient;
    assert toRead > 0 && InternalStep(s, max) == CutWindow(s, c, toRead, exceeded);
    CutWindowDelivers(s, c, toRead, exceeded);
  }

  /** DeliveredReadIsCompleteLines for the cut of one window. */
  lemma CutWindowDelivers(s: ReaderState, c: int, toRead: int, exceeded: ReadLine)
    requires 0 <= c && 0 < toRead && c + toRead <= |s.data|
    requires CutWindow(s, c, toRead, exceeded).1.line != []
    ensures var (s1, res) := CutWindow(s, c, toRead, exceeded);
      && c < s1.cursor <= c + toRead
      && res.line == s.data[c..s1.cursor]
      && s.data[s1.cursor - 1] == LF
      && NoLineFeed(s.data[s1.cursor..c + toRead])
      && res.sizeExceeded == exceeded
      && s1.data == s.data && s1.disposed == s.disposed
  {
    var i := LastIndexOf(s.data[c..c + toRead], LF);
    WindowCut(s.data, c, toRead, i);
  }

  /** A window of `data` cut after its last line feed, at `i`: the part handed back
      is the bytes from `c` through that LF, and none follows it in the window. */
  lemma WindowCut(data: seq<byte>, c: int, toRead: int, i: int)
    requires 0 <= c && 0 <= toRead && c + toRead <= |data|
    requires i == LastIndexOf(data[c..c + toRead], LF) && i >= 0
    ensures data[c..c + toRead][..i + 1] == data[c..c + i + 1]
    ensures data[c + i] == LF
    ensures NoLineFeed(data[c + i + 1..c + toRead])
  {
    var window := data[c..c + toRead];
    assert data[c + i] == window[i];
    var rest := data[c + i + 1..c + toRead];
    forall k | 0 <= k < |rest|
      ensures rest[k] != LF
    {
      assert rest[k] == window[i + 1 + k];
    }
  }

  /**
   * A read that hands back nothing always reports BufferSufficient, even when the
   * window was capped. Unless the file shrank below the cursor, the cursor stays
   * where the read started and no line feed lies in the window, so a line longer
   * than max is never delivered and never skipped.
   */
  lemma EmptyReadKeepsCursor(s: ReaderState, max: int)
    requires !s.disposed && 0 <= StartCursor(s) <= |s.data|
    requires InternalStep(s, max).1.line == []
    ensures var (s1, res) := InternalStep(s, max);
      var c := StartCursor(s);
      var windowEnd := if |s.data| - c > max then c + max else |s.data|;
      && res == Nothing
      && s1.cursor == c && s1.data == s.data && !s1.disposed
      && (c <= windowEnd ==> NoLineFeed(s.data[c..windowEnd]))
      && ReadStep(s, max) == (s1, Success(res))
  {
    var c := StartCursor(s);
    var toRead := if |s.data| - c > max then max else |s.data| - c;
    if toRead > 0 {
      var window := s.data[c..c + toRead];
      assert LastIndexOf(window, LF) < 0;
    }
  }

  /** A read at a cursor beyond the end of a file that shrank returns nothing and
      re-establishes the cursor from the end of file, as at open. */
  lemma ShrunkFileResetsCursor(s: ReaderState, max: int)
    requires !s.disposed && StartCursor(s) > |s.data|
    ensures var (s1, res) := InternalStep(s, max);
      && res == Nothing
      && s1 == s.(cursor := LastLineStart(s.data))
      && (ReadStep(s, max).1.Success? <==> LastLineStart(s.data) >= 0)
  {
    LastLineStartSpec(s.data);
  }

  /** A fault inside the read is swallowed: on a closed stream, or on a file that
      still holds no line feed while the cursor is -1, the internal read returns
      nothing and changes nothing, and the unguarded seek that follows throws. */
  lemma FaultingReadThrows(s: ReaderState, max: int)
    requires s.disposed || StartCursor(s) == -1
    ensures InternalStep(s, max) == (s, Nothing)
    ensures ReadStep(s, max) == (s, Failure(if s.disposed then StreamDisposed else SeekBeforeBegin))
  {
  }

  /**
   * Idempotence: after a read that reported BufferSufficient from a cursor inside
   * the file, a second read on the same bytes hands back nothing and leaves the
   * state as it is.
   */
  lemma SecondReadWithoutNewBytesIsNoOp(s: ReaderState, max: int)
    requires !s.disposed && 0 <= StartCursor(s) <= |s.data|
    requires InternalStep(s, max).1.sizeExceeded == BufferSufficient
    ensures var s1 := InternalStep(s, max).0;
      && 0 <= StartCursor(s1) <= |s1.data|
      && InternalStep(s1, max).1 == Nothing
      && InternalStep(s1, max).0.cursor == s1.cursor
      && ReadStep(s1, max).1 == Success(Nothing)
  {
    var (s1, res) := InternalStep(s, max);
    if res.line != [] {
      DeliveredReadIsCompleteLines(s, max);
    } else {
      EmptyReadKeepsCursor(s, max);
    }
    assert StartCursor(s1) == s1.cursor && s1.data == s.data && !s1.disposed;
    WindowFreeOfLineFeedReadsNothing(s1, max);
  }

  /** A read whose window holds no line feed hands back nothing and keeps the cursor. */
  lemma WindowFreeOfLineFeedReadsNothing(s: ReaderState, max: int)
    requires !s.disposed && 0 <= StartCursor(s) <= |s.data|
    requires var c := StartCursor(s);
      var windowEnd := if |s.data| - c > max then c + max else |s.data|;
      c <= windowEnd ==> NoLineFeed(s.data[c..windowEnd])
    ensures InternalStep(s, max).1 == Nothing
    ensures InternalStep(s, max).0.cursor == StartCursor(s)
    ensures ReadStep(s, max).1 == Success(Nothing)
  {
    var c := StartCursor(s);
    var toRead := if |s.data| - c > max then max else |s.data| - c;
    if toRead > 0 {
      assert LastIndexOf(s.data[c..c + toRead], LF) < 0;
    }
  }

  /** A line longer than the cap stalls the reader: with no new bytes, every further
      read from the same state hands back nothing and changes nothing but the buffer. */
  lemma OverlongLineStalls(s: ReaderState, max: int)
    requires !s.disposed && 0 < max && 0 <= StartCursor(s) && StartCursor(s) + max < |s.data|
    requires NoLineFeed(s.data[StartCursor(s)..StartCursor(s) + max])
    ensures var (s1, res) := InternalStep(s, max);
      && res == Nothing
      && s1 == s.(cursor := StartCursor(s), scratch := Reallocate(s.scratch, max))
  {
    var c := StartCursor(s);
    assert LastIndexOf(s.data[c..c + max], LF) == -1;
  }
}
