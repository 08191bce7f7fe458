/**
 * The file-set lifecycle (`AutoCurrentFileList`) as a function over values: the
 * map from file name to reader state, and the trace of events posted to the
 * event producer. The class in file_list.dfy is proved to follow it.
 */
module FileSet {
  import opened Wrappers
  import opened Lines
  import opened Tailing

  /** The byte cap of each read a change notification makes. */
  const MaxContentLengthToForwardForEachScanInBytes := 65536

  /** The most reads one change notification makes. */
  const MaxLoop := 1000

  datatype FileSystemWatcherChangeType = Created | Deleted | Changed

  /** One notification of a batch. */
  datatype FileEntry = FileEntry(fileName: string, changeType: FileSystemWatcherChangeType)

  /** The events posted to the event producer around the reads of a change. */
  datatype Event = CheckLogFileStart(fileName: string) | CheckLogFileCompleted(fileName: string)

  /** The tracked files by name and the events posted so far. */
  datatype ListState = ListState(files: map<string, ReaderState>, events: seq<Event>)

  /** The outcome of the read loop of one change: the reader state it left, the
      bytes each read handed back, how many reads ran, the exception that escaped
      (if any) and the flag of the last read. */
  datatype Drained = Drained(state: ReaderState, lines: seq<seq<byte>>, count: nat,
                             thrown: Option<Fault>, last: ReadLine)

  /** All bytes handed back by a sequence of reads, in order. */
  function Flatten(lines: seq<seq<byte>>): seq<byte> {
    if lines == [] then [] else lines[0] + Flatten(lines[1..])
  }

  /** A read of the change handler on a reader state: the state it leaves and its outcome. */
  type Read = ReaderState -> (ReaderState, Result<ReadResult>)

  /** `ReadLineFromCurrentPositionToEnd` with the 64 KiB cap of a change notification. */
  function CappedRead(s: ReaderState): (ReaderState, Result<ReadResult>) {
    ReadStep(s, MaxContentLengthToForwardForEachScanInBytes)
  }

  /**
   * The read loop of a change for a reader whose reads are `read`: read until a
   * read reports BufferSufficient or `maxLoop` reads have run; an exception ends
   * it at once.
   */
  function Loop(read: Read, s: ReaderState, maxLoop: int): (d: Drained)
    requires maxLoop >= 1
    ensures 1 <= d.count <= maxLoop
    ensures d.thrown.None? && d.last == ReadLineContentExceedsSize ==> d.count == maxLoop
    decreases maxLoop
  {
    var (s1, r) := read(s);
    match r
    case Failure(f) => Drained(s1, [], 1, Some(f), BufferSufficient)
    case Success(res) =>
      if res.sizeExceeded == BufferSufficient || maxLoop - 1 <= 0 then
        Drained(s1, [res.line], 1, None, res.sizeExceeded)
      else
        var d := Loop(read, s1, maxLoop - 1);
        d.(lines := [res.line] + d.lines, count := d.count + 1)
  }

  /** The read loop of a change on a tracked file. */
  function Drain(s: ReaderState, maxLoop: int): (d: Drained)
    requires maxLoop >= 1
    ensures 1 <= d.count <= maxLoop
  {
    Loop(CappedRead, s, maxLoop)
  }

  /** The end of the window a read from `c` looks at. */
  function WindowEnd(data: seq<byte>, c: int): int {
    if |data| - c > MaxContentLengthToForwardForEachScanInBytes
    then c + MaxContentLengthToForwardForEachScanInBytes else |data|
  }

  /** What one read from an established cursor inside the file does: it succeeds,
      hands back the bytes from the cursor to its new position, ending in a line
      feed unless empty, and when it reports BufferSufficient no line feed is left
      in the window after the new cursor. */
  ghost predicate ReadsCompleteLines(s: ReaderState, s1: ReaderState, r: Result<ReadResult>) {
    && r.Success?
    && s1.data == s.data && !s1.disposed
    && 0 <= s.cursor <= s1.cursor <= |s.data|
    && r.value.line == s.data[s.cursor..s1.cursor]
    && (r.value.line == [] ==> s1.cursor == s.cursor && r.value.sizeExceeded == BufferSufficient)
    && (r.value.line != [] ==> s1.cursor > s.cursor && r.value.line[|r.value.line| - 1] == LF)
    && (r.value.sizeExceeded == BufferSufficient ==>
          NoLineFeed(s.data[s1.cursor..WindowEnd(s.data, s1.cursor)]))
  }

  /** Every capped read from an established cursor inside the file reads complete lines. */
  lemma OneReadInsideFile(s: ReaderState)
    requires !s.disposed && 0 <= s.cursor <= |s.data|
    ensures ReadsCompleteLines(s, CappedRead(s).0, CappedRead(s).1)
  {
    var max := MaxContentLengthToForwardForEachScanInBytes;
    var c := s.cursor;
    assert StartCursor(s) == c;
    var (s1, res) := InternalStep(s, max);
    if res.line != [] {
      DeliveredReadIsCompleteLines(s, max);
      assert res.line[|res.line| - 1] == s.data[s1.cursor - 1];
      if res.sizeExceeded == BufferSufficient {
        assert WindowEnd(s.data, c) == |s.data| == WindowEnd(s.data, s1.cursor);
      }
    } else {
      EmptyReadKeepsCursor(s, max);
    }
  }

  /** A cursor of -1 is re-established before anything else, so the read loop from
      it is the read loop from the cursor it is re-established to. */
  lemma DrainReestablishesCursor(s: ReaderState, maxLoop: int)
    requires maxLoop >= 1 && !s.disposed && 0 <= StartCursor(s)
    ensures Drain(s, maxLoop) == Drain(s.(cursor := StartCursor(s)), maxLoop)
  {
    var c := StartCursor(s);
    var max := MaxContentLengthToForwardForEachScanInBytes;
    if s.cursor == -1 {
      LastLineStartSpec(s.data);
      ReadFromIgnoresCursor(s, c, max);
      assert InternalStep(s, max) == InternalStep(s.(cursor := c), max);
      assert CappedRead(s) == CappedRead(s.(cursor := c));
    } else {
      assert s.(cursor := c) == s;
    }
  }

  /** The read loop unfolded once, after a first read that succeeded with `res`, leaving `s1`. */
  lemma DrainAfterRead(s: ReaderState, maxLoop: int, s1: ReaderState, res: ReadResult)
    requires maxLoop >= 1
    requires ReadStep(s, MaxContentLengthToForwardForEachScanInBytes) == (s1, Success(res))
    ensures res.sizeExceeded == BufferSufficient || maxLoop - 1 <= 0 ==>
      Drain(s, maxLoop) == Drained(s1, [res.line], 1, None, res.sizeExceeded)
    ensures res.sizeExceeded != BufferSufficient && maxLoop - 1 > 0 ==>
      var rest := Drain(s1, maxLoop - 1);
      Drain(s, maxLoop) == rest.(lines := [res.line] + rest.lines, count := rest.count + 1)
  {
  }

  /** The read loop, part way through: `d` is what the whole loop yields, `written`
      what it has handed back so far, and the rest of it runs from `s` with
      `maxLoop` reads left. */
  ghost predicate DrainResumes(d: Drained, written: seq<seq<byte>>, s: ReaderState, maxLoop: int)
    requires maxLoop >= 1
  {
    Continues(d, written, Drain(s, maxLoop))
  }

  /** `d` is `written` followed by what `rest` yields. */
  ghost predicate Continues(d: Drained, written: seq<seq<byte>>, rest: Drained) {
    (d.state, d.thrown, d.lines) == (rest.state, rest.thrown, written + rest.lines)
  }

  /** Before its first read the loop has handed back nothing. */
  lemma DrainStarts(s: ReaderState, maxLoop: int)
    requires maxLoop >= 1
    ensures DrainResumes(Drain(s, maxLoop), [], s, maxLoop)
  {
    var d := Drain(s, maxLoop);
    assert [] + d.lines == d.lines;
  }

  /** The read loop has ended in state `s`, with exception `thrown` and lines `written`. */
  ghost predicate DrainEnds(d: Drained, s: ReaderState, thrown: Option<Fault>, written: seq<seq<byte>>) {
    d.state == s && d.thrown == thrown && d.lines == written
  }

  /** One pass of the read loop, after a read that left `s1` with outcome `r`: the
      loop either stops with the final state, exception and lines, or resumes from `s1`. */
  lemma DrainPass(d: Drained, written: seq<seq<byte>>, s: ReaderState, maxLoop: int,
                  s1: ReaderState, r: Result<ReadResult>)
    requires maxLoop >= 1 && DrainResumes(d, written, s, maxLoop)
    requires ReadStep(s, MaxContentLengthToForwardForEachScanInBytes) == (s1, r)
    ensures r.Failure? ==> DrainEnds(d, s1, Some(r.fault), written)
    ensures r.Success? && (r.value.sizeExceeded == BufferSufficient || maxLoop - 1 <= 0) ==>
      DrainEnds(d, s1, None, written + [r.value.line])
    ensures r.Success? && r.value.sizeExceeded != BufferSufficient && maxLoop - 1 > 0 ==>
      DrainResumes(d, written + [r.value.line], s1, maxLoop - 1)
  {
    if r.Failure? {
      assert written + [] == written;
    } else {
      DrainAfterRead(s, maxLoop, s1, r.value);
      if r.value.sizeExceeded != BufferSufficient && maxLoop - 1 > 0 {
        var rest := Drain(s1, maxLoop - 1);
        assert written + ([r.value.line] + rest.lines) == (written + [r.value.line]) + rest.lines;
      }
    }
  }

  /** DrainPass for the loop's own decision: after the read, `stop` says whether
      the loop ends, and `maxLoop1` and `rest1` are where it resumes when not. */
  lemma PassDecided(d: Drained, written: seq<seq<byte>>, s: ReaderState, maxLoop: int,
                    s1: ReaderState, r: Result<ReadResult>,
                    thrown: Option<Fault>, written1: seq<seq<byte>>, maxLoop1: int, stop: bool, rest1: Drained)
    requires maxLoop >= 1 && DrainResumes(d, written, s, maxLoop)
    requires ReadStep(s, MaxContentLengthToForwardForEachScanInBytes) == (s1, r)
    requires r.Failure? ==> thrown == Some(r.fault) && written1 == written && stop
    requires r.Success? ==>
      && thrown == None && written1 == written + [r.value.line]
      && maxLoop1 == (if r.value.sizeExceeded == BufferSufficient then maxLoop else maxLoop - 1)
      && stop == (r.value.sizeExceeded == BufferSufficient || maxLoop1 <= 0)
    requires !stop ==> rest1 == Drain(s1, maxLoop1)
    ensures !stop ==> 1 <= maxLoop1 < maxLoop && rest1 == Drain(s1, maxLoop1) && Continues(d, written1, rest1)
    ensures stop ==> DrainEnds(d, s1, thrown, written1)
  {
    DrainPass(d, written, s, maxLoop, s1, r);
  }

  /** What the read loop from cursor `c` of `data` delivers: see DrainDeliversContiguousLines. */
  ghost predicate Delivers(data: seq<byte>, c: int, d: Drained) {
    && d.thrown.None?
    && d.state.data == data && !d.state.disposed
    && 0 <= c <= d.state.cursor <= |data|
    && Flatten(d.lines) == data[c..d.state.cursor]
    && CompleteLines(d.lines)
    && (d.state.cursor == c || data[d.state.cursor - 1] == LF)
    && (d.last == BufferSufficient ==> NoLineFeed(data[d.state.cursor..WindowEnd(data, d.state.cursor)]))
  }

  /** Every non-empty piece ends with a line feed. */
  ghost predicate CompleteLines(lines: seq<seq<byte>>) {
    forall i :: 0 <= i < |lines| && lines[i] != [] ==> lines[i][|lines[i]| - 1] == LF
  }

  lemma CompleteLinesCons(line: seq<byte>, lines: seq<seq<byte>>)
    requires line != [] ==> line[|line| - 1] == LF
    requires CompleteLines(lines)
    ensures CompleteLines([line] + lines)
  {
    forall i | 0 <= i < |[line] + lines| && ([line] + lines)[i] != []
      ensures ([line] + lines)[i][|([line] + lines)[i]| - 1] == LF
    {
      if i > 0 { assert ([line] + lines)[i] == lines[i - 1]; }
    }
  }

  /** A loop that ends after its first read delivers what that read handed back. */
  lemma DeliversOneRead(data: seq<byte>, c: int, s1: ReaderState, line: seq<byte>, last: ReadLine)
    requires s1.data == data && !s1.disposed && 0 <= c <= s1.cursor <= |data|
    requires line == data[c..s1.cursor] && (line != [] ==> line[|line| - 1] == LF)
    requires line == [] ==> s1.cursor == c
    requires last == BufferSufficient ==> NoLineFeed(data[s1.cursor..WindowEnd(data, s1.cursor)])
    ensures Delivers(data, c, Drained(s1, [line], 1, None, last))
  {
    assert Flatten([line]) == line + Flatten([]);
  }

  /** A first read of complete lines followed by a loop that delivers from where it
      left off delivers from the first cursor. */
  lemma DeliversExtends(data: seq<byte>, c: int, c1: int, line: seq<byte>, rest: Drained)
    requires 0 <= c < c1 <= |data| && line == data[c..c1] && line[|line| - 1] == LF
    requires Delivers(data, c1, rest)
    ensures Delivers(data, c, rest.(lines := [line] + rest.lines, count := rest.count + 1))
  {
    var lines := [line] + rest.lines;
    assert lines[1..] == rest.lines;
    assert Flatten(lines) == line + Flatten(rest.lines);
    assert data[c..rest.state.cursor] == data[c..c1] + data[c1..rest.state.cursor];
    CompleteLinesCons(line, rest.lines);
  }

  /**
   * No loss, no duplication: from a cursor inside the file, the read loop of one
   * change throws nothing, hands back exactly the bytes from the cursor to its
   * new position, each piece made of complete lines, and leaves the cursor on a
   * line start. When the last read reported BufferSufficient, no line feed is
   * left in the window after the cursor: the tail is an unterminated fragment.
   */
  lemma DrainDeliversContiguousLines(s: ReaderState, maxLoop: int)
    requires maxLoop >= 1 && !s.disposed && 0 <= StartCursor(s) <= |s.data|
    ensures Delivers(s.data, StartCursor(s), Drain(s, maxLoop))
  {
    forall x: ReaderState | !x.disposed && 0 <= x.cursor <= |x.data|
      ensures ReadsCompleteLines(x, CappedRead(x).0, CappedRead(x).1)
    {
      OneReadInsideFile(x);
    }
    DrainReestablishesCursor(s, maxLoop);
    LoopDeliversContiguousLines(CappedRead, s.(cursor := StartCursor(s)), maxLoop);
  }

  /** DrainDeliversContiguousLines for any read that reads complete lines, from an
      established cursor. */
  lemma {:induction false} LoopDeliversContiguousLines(read: Read, s: ReaderState, maxLoop: int)
    requires forall x: ReaderState {:trigger ReadsCompleteLines(x, read(x).0, read(x).1)} ::
      !x.disposed && 0 <= x.cursor <= |x.data| ==> ReadsCompleteLines(x, read(x).0, read(x).1)
    requires maxLoop >= 1 && !s.disposed && 0 <= s.cursor <= |s.data|
    ensures Delivers(s.data, s.cursor, Loop(read, s, maxLoop))
    decreases maxLoop
  {
    var s1 := read(s).0;
    var r := read(s).1;
    assert ReadsCompleteLines(s, s1, r);
    var line := r.value.line;
    if r.value.sizeExceeded == BufferSufficient || maxLoop - 1 <= 0 {
      DeliversOneRead(s.data, s.cursor, s1, line, r.value.sizeExceeded);
    } else {
      LoopDeliversContiguousLines(read, s1, maxLoop - 1);
      DeliversExtends(s.data, s.cursor, s1.cursor, line, Loop(read, s1, maxLoop - 1));
    }
  }

  /** A file that still holds no line feed, with the cursor at -1, makes the
      first read of a change throw: the seek back to offset -1 escapes. */
  lemma UnterminatedFileThrows(s: ReaderState, maxLoop: int)
    requires maxLoop >= 1 && !s.disposed && s.cursor == -1 && NoLineFeed(s.data)
    ensures Drain(s, maxLoop) == Drained(s, [], 1, Some(SeekBeforeBegin), BufferSufficient)
  {
    LastLineStartSpec(s.data);
    FaultingReadThrows(s, MaxContentLengthToForwardForEachScanInBytes);
  }

  /** `AddFile`: open the file (it must exist on `disk`), then add it to the map,
      which throws when the name is already tracked. */
  function AddStep(files: map<string, ReaderState>, name: string, disk: map<string, seq<byte>>)
    : Result<map<string, ReaderState>>
  {
    if name !in disk then Failure(FileNotFound)
    else if name in files then Failure(DuplicateKey)
    else Success(files[name := Opened(disk[name])])
  }

  /** `RemoveFile`: forget a tracked name (its reader is disposed); an untracked one is ignored. */
  function RemoveStep(files: map<string, ReaderState>, name: string): map<string, ReaderState> {
    if name in files then files - {name} else files
  }

  /**
   * What `FileChanged` does to the files, and the exception it raises: an
   * untracked name is added, but looked up again in the snapshot taken before the
   * add, so nothing is read this time; a tracked one runs the read loop.
   */
  function ChangedFiles(files: map<string, ReaderState>, name: string, disk: map<string, seq<byte>>)
    : (map<string, ReaderState>, Option<Fault>)
  {
    if name !in files then
      match AddStep(files, name, disk)
      case Failure(f) => (files, Some(f))
      case Success(added) => (added, None)
    else
      var d := Drain(files[name], MaxLoop);
      (files[name := d.state], d.thrown)
  }

  /** `FileChanged`: ChangedFiles between the start event and, unless an exception
      escaped, the completed event. */
  function ChangedStep(st: ListState, name: string, disk: map<string, seq<byte>>): (ListState, Option<Fault>) {
    var (files, thrown) := ChangedFiles(st.files, name, disk);
    var completed := if thrown.None? then [CheckLogFileCompleted(name)] else [];
    (ListState(files, st.events + [CheckLogFileStart(name)] + completed), thrown)
  }

  /** One notification of a batch; the second component is the exception it raised. */
  function EntryStep(st: ListState, e: FileEntry, disk: map<string, seq<byte>>): (ListState, Option<Fault>) {
    match e.changeType
    case Created =>
      (match AddStep(st.files, e.fileName, disk)
       case Failure(f) => (st, Some(f))
       case Success(files) => (st.(files := files), None))
    case Deleted => (st.(files := RemoveStep(st.files, e.fileName)), None)
    case Changed => ChangedStep(st, e.fileName, disk)
  }

  /** The state after a batch, and how many of its notifications ran to completion. */
  datatype BatchResult = BatchResult(state: ListState, handled: nat)

  /** `HandleFileChanges`: the notifications in order; the first exception is caught
      once, outside the loop, so it ends the batch. */
  function BatchStep(st: ListState, batch: seq<FileEntry>, disk: map<string, seq<byte>>): (r: BatchResult)
    ensures r.handled <= |batch|
    decreases batch
  {
    if batch == [] then BatchResult(st, 0)
    else
      var (st1, thrown) := EntryStep(st, batch[0], disk);
      if thrown.Some? then BatchResult(st1, 0)
      else
        var r := BatchStep(st1, batch[1..], disk);
        BatchResult(r.state, r.handled + 1)
  }

  // ---------------------------------------------------------------------------
  // What the lifecycle guarantees

  /**
   * In-order processing: a batch is its first k notifications followed by the
   * rest, started from where the first k left off, as long as none of them threw;
   * and when fewer than all ran to completion, the next one threw and the batch
   * stopped right there.
   */
  lemma {:induction false} BatchRunsInOrder(st: ListState, batch: seq<FileEntry>, disk: map<string, seq<byte>>, k: nat)
    requires k <= |batch|
    ensures var pre := BatchStep(st, batch[..k], disk);
      && (pre.handled == k ==>
            var rest := BatchStep(pre.state, batch[k..], disk);
            BatchStep(st, batch, disk) == BatchResult(rest.state, k + rest.handled))
      && (k < |batch| && BatchStep(st, batch, disk).handled == k && pre.handled == k ==>
            var (st1, thrown) := EntryStep(pre.state, batch[k], disk);
            thrown.Some? && BatchStep(st, batch, disk).state == st1)
    decreases k
  {
    if k > 0 {
      var (st1, thrown) := EntryStep(st, batch[0], disk);
      assert batch[..k][0] == batch[0];
      assert batch[..k][1..] == batch[1..][..k - 1];
      assert batch[k..] == batch[1..][k - 1..];
      if thrown.None? {
        BatchRunsInOrder(st1, batch[1..], disk, k - 1);
      }
    } else {
      assert batch[k..] == batch;
    }
  }

  /** One more notification of a batch whose first `i` ran to completion from `st0`
      and left `st`: it either ends the batch or extends the completed prefix. */
  lemma BatchStepExtends(st0: ListState, batch: seq<FileEntry>, disk: map<string, seq<byte>>, i: nat,
                         st: ListState, st1: ListState, thrown: Option<Fault>)
    requires i < |batch| && BatchStep(st0, batch[..i], disk) == BatchResult(st, i)
    requires EntryStep(st, batch[i], disk) == (st1, thrown)
    ensures thrown.Some? ==> BatchStep(st0, batch, disk).state == st1
    ensures thrown.None? ==> BatchStep(st0, batch[..i + 1], disk) == BatchResult(st1, i + 1)
  {
    BatchRunsInOrder(st0, batch, disk, i);
    assert batch[i..][0] == batch[i];
    if thrown.None? {
      BatchRunsInOrder(st0, batch[..i + 1], disk, i);
      assert batch[..i + 1][..i] == batch[..i];
      assert batch[..i + 1][i..] == [batch[i]];
      assert BatchStep(st, [batch[i]], disk) == BatchResult(st1, 1);
    }
  }

  /** A Created notification for a name that is already tracked throws on the
      duplicate key (or on a missing file): nothing changes and the rest of the
      batch is skipped. */
  lemma CreatedOnTrackedNameAbortsBatch(st: ListState, name: string, rest: seq<FileEntry>, disk: map<string, seq<byte>>)
    requires name in st.files
    ensures BatchStep(st, [FileEntry(name, Created)] + rest, disk) == BatchResult(st, 0)
  {
    var batch := [FileEntry(name, Created)] + rest;
    assert batch[0] == FileEntry(name, Created);
  }

  /** Deleted on an untracked name changes nothing; on a tracked one it removes that
      name and nothing else, and posts no event. */
  lemma DeletedRemovesOnlyItsFile(st: ListState, name: string, disk: map<string, seq<byte>>)
    ensures var (st1, thrown) := EntryStep(st, FileEntry(name, Deleted), disk);
      && thrown.None? && st1.events == st.events
      && (name !in st.files ==> st1 == st)
      && st1.files.Keys == st.files.Keys - {name}
      && (forall n :: n in st1.files ==> st1.files[n] == st.files[n])
  {
  }

  /**
   * A change posts CheckLogFileStart first and, unless an exception escaped,
   * CheckLogFileCompleted last, and nothing in between. On a tracked file it
   * changes that file only, by the read loop, which makes at most 1000 reads and
   * stops at the first one that reports BufferSufficient.
   */
  lemma ChangedBracketsReads(st: ListState, name: string, disk: map<string, seq<byte>>)
    ensures var (st1, thrown) := ChangedStep(st, name, disk);
      && st1.events == st.events + [CheckLogFileStart(name)]
                        + (if thrown.None? then [CheckLogFileCompleted(name)] else [])
      && (name in st.files ==>
            var d := Drain(st.files[name], MaxLoop);
            && st1.files == st.files[name := d.state]
            && thrown == d.thrown
            && 1 <= d.count <= MaxLoop
            && (d.thrown.None? && d.count < MaxLoop ==> d.last == BufferSufficient))
  {
  }

  /** Self-healing with a lag: a change for an untracked name that exists on disk
      starts tracking it, opened on the start of its last complete line, but reads
      nothing on this notification. */
  lemma ChangedOnUntrackedNameOnlyAdds(st: ListState, name: string, disk: map<string, seq<byte>>)
    requires name !in st.files && name in disk
    ensures ChangedStep(st, name, disk)
      == (ListState(st.files[name := Opened(disk[name])],
                    st.events + [CheckLogFileStart(name), CheckLogFileCompleted(name)]), None)
  {
    assert st.events + [CheckLogFileStart(name)] + [CheckLogFileCompleted(name)]
        == st.events + [CheckLogFileStart(name), CheckLogFileCompleted(name)];
  }

  /** A change on a tracked file that has never held a line feed throws: only the
      start event is posted and the batch stops there. */
  lemma ChangedOnUnterminatedFileAbortsBatch(st: ListState, name: string, rest: seq<FileEntry>,
                                             disk: map<string, seq<byte>>)
    requires name in st.files
    requires var s := st.files[name]; !s.disposed && s.cursor == -1 && NoLineFeed(s.data)
    ensures BatchStep(st, [FileEntry(name, Changed)] + rest, disk)
      == BatchResult(ListState(st.files, st.events + [CheckLogFileStart(name)]), 0)
  {
    UnterminatedFileThrows(st.files[name], MaxLoop);
    var batch := [FileEntry(name, Changed)] + rest;
    assert batch[0] == FileEntry(name, Changed);
    assert st.files[name := st.files[name]] == st.files;
  }
}
