# Log-file tailing engine of the easylog scanner

This project models the tailing engine of the easylog log scanner, found in
`ScanLogFile.cs`. The scanner follows a set of container log files. Each
time the file system sends a batch of notifications (Created, Deleted or
Changed), it updates the set of files it tracks. For each Changed file it
forwards the complete lines that have been appended since the last read. The
engine has three parts, and the Dafny modules follow them:

- **`FileSeeker`** (module `Seeking`, seeker.dfy) searches a stream
  backwards, in 80-byte chunks, for the previous line feed and for the start
  of the previous line. It is proved against `Lines.PrevLineFeed` and
  `Lines.LineStartBefore`: "the greatest LF below p" and "one past the LF
  before it". Those specifications are in lines.dfy, and the chunk size is
  proved not to affect the result.
- **`FileReadOnlyWrapper`** (module `Reader`, reader.dfy) is the reader
  for one file. It keeps a cursor, a reusable read buffer and a counter that
  decides when the buffer shrinks. Each method is proved to perform one step
  of the value model `Tailing` (tailing.dfy): `InternalStep`, `ReadStep`
  and `Reallocate`. The lemmas about what a read delivers are proved on
  that model.
- **`AutoCurrentFileList`** (module `FileList`, file_list.dfy) holds the
  map from file name to reader and the event producer. Its methods are proved
  to perform `FileSet.BatchStep`, `EntryStep`, `ChangedStep`, `AddStep`
  and `RemoveStep` (file_set.dfy). The lifecycle lemmas are proved on those
  functions, and so is the bounded read loop `Drain`.

The stream is `Streams.ByteStream`. It holds the file's bytes (`data`), a
position that cannot go below 0, and a disposed flag. Its `Seek` throws on a
negative target or on a closed stream, as `FileStream` does. Exceptions are
values of `Wrappers.Fault`. An operation that can throw returns a
`Result` or an `Option<Fault>`. Where the source catches an exception,
the model takes the caught path explicitly.

Behaviour of the code that the model keeps, although a reader of the comments
might expect otherwise:

- When the backward search finds no LF, it puts the stream back on the
  position it started from, not on 0.
- A read window that holds no LF returns an empty result flagged
  `BufferSufficient`, and the cursor does not move. This holds even when
  the window was capped. The comment on `IFile` (ScanLogFile.cs:141-145)
  says the whole string would be returned in that case, but the code does not
  do this. So a line longer than the cap stalls its reader:
  `Tailing.OverlongLineStalls`.
- When the file has shrunk below the cursor, the read resets the cursor to the start of the last complete line. The next read then hands back that line again, even when it had already been delivered.
- One `try` surrounds the whole batch loop (ScanLogFile.cs:49-76). The first
  exception therefore ends the batch, and the remaining notifications are
  dropped.
- On an untracked name, `FileChanged` adds the file. It then looks the name
  up again in the snapshot `list`, which was taken before the add. So the
  file is tracked from then on, but nothing is read on that notification.
- While the cursor is -1 (the file has no LF yet), two seeks aim at offset -1:
  - the one inside the internal read (ScanLogFile.cs:447) throws, and the
    `catch` there swallows it;
  - the one in `ReadLineFromCurrentPositionToEnd` (ScanLogFile.cs:416) is
    not guarded, so that exception escapes to `HandleFileChanges` and ends
    the batch.

## Model

| member | source | states |
|---|---|---|
| Lines.LastIndexOf | src/EasyKubeLogDDD/services/Scanner/src/Scanner.Infrastructure/Adapter/ScanLogFiles/ScanLogFile.cs:474 | The result is -1 or an index of the byte, with no occurrence of it after that index. Lines.LastIndexOfDetermined proves that this pins the value down. |
| Lines.LineStartBefore | src/EasyKubeLogDDD/services/Scanner/src/Scanner.Infrastructure/Adapter/ScanLogFiles/ScanLogFile.cs:245-273 | No ensures; the body is the model: one past the LF before the LF found from p, 0 when there is no earlier one, -1 when no LF precedes p. Lines.LineStartBeforeSpec and Lines.SeekRecoversPreviousLine state its properties. |
| Lines.LastLineStart | src/EasyKubeLogDDD/services/Scanner/src/Scanner.Infrastructure/Adapter/ScanLogFiles/ScanLogFile.cs:428-436 | No ensures; the body is the model: the previous-line seek from the end of the file. Lines.LastLineStartSpec states its properties. |
| Lines.PrevLineFeed | src/EasyKubeLogDDD/services/Scanner/src/Scanner.Infrastructure/Adapter/ScanLogFiles/ScanLogFile.cs:185-226 | The LF the backward search stops on: an LF index below p and inside the data, or -1. |
| Lines.LineStartBeforeSpec | src/EasyKubeLogDDD/services/Scanner/src/Scanner.Infrastructure/Adapter/ScanLogFiles/ScanLogFile.cs:245-273 | The previous-line seek from p finds something exactly when an LF lies below p (both directions). It then lands on 0 or just after an LF, and exactly one LF, the one first found, lies between the landing point and p. |
| Lines.LastLineStartSpec | src/EasyKubeLogDDD/services/Scanner/src/Scanner.Infrastructure/Adapter/ScanLogFiles/ScanLogFile.cs:428-436 | The opening cursor is -1 exactly when the file holds no LF. Otherwise it is an offset in [0, Length) that is 0 or follows an LF, and it starts the line that ends at the file's last LF. |
| Lines.SeekRecoversPreviousLine | src/EasyKubeLog/LoggingLibraries/FileTools/FileTools.Test/FileToolsTest_BackwardsSeekTests_PHYSICAL_FILE_.cs:67-79 | In a file of LF-terminated lines, empty lines included, the seek from the start of line k+1 (or from the end) lands on the start of line k, and the bytes between are exactly line k and its LF. From offset 0 the seek finds nothing. So repeated seeks recover every line in reverse. |
| Streams.ByteStream.constructor | src/EasyKubeLogDDD/services/Scanner/src/Scanner.Infrastructure/Adapter/ScanLogFiles/ScanLogFile.cs:302-305 | A freshly opened stream holds the file's bytes, is positioned at 0 and is not closed. |
| Streams.ByteStream.Seek | src/EasyKubeLogDDD/services/Scanner/src/Scanner.Infrastructure/Adapter/ScanLogFiles/ScanLogFile.cs:280 | Moves to the begin-, current- or end-relative target and returns it. A closed stream or a negative target throws, and the position does not move. Past the end is allowed. |
| Streams.ByteStream.Read | src/EasyKubeLogDDD/services/Scanner/src/Scanner.Infrastructure/Adapter/ScanLogFiles/ScanLogFile.cs:283 | Copies min(count, bytes left) bytes from the position into the buffer, leaves the rest of the buffer untouched, and advances the position by that many. |
| Streams.ByteStream.Dispose | src/EasyKubeLogDDD/services/Scanner/src/Scanner.Infrastructure/Adapter/ScanLogFiles/ScanLogFile.cs:321-326 | The stream is closed afterwards; closing twice is harmless. |
| Seeking.FileSeeker.constructor | src/EasyKubeLogDDD/services/Scanner/src/Scanner.Infrastructure/Adapter/ScanLogFiles/ScanLogFile.cs:183 | A new seeker has no chunk buffer yet. The buffer is allocated at the first search, at the chunk size (line 187). |
| Seeking.FileSeeker.SeekNextLineFeedInNegativeDirectionAndPositionStreamOnIt | src/EasyKubeLogDDD/services/Scanner/src/Scanner.Infrastructure/Adapter/ScanLogFiles/ScanLogFile.cs:185-226 | For a start position within the file, it returns true exactly when an LF lies below that position, and then leaves the stream on the greatest such index. From a start beyond the end nothing is found, because the first chunk read comes back short. Otherwise it restores the start position. The result is PrevLineFeed for any chunk size, and the chunk buffer has the requested size afterwards. |
| Seeking.FileSeeker.ChunkScanned | src/EasyKubeLogDDD/services/Scanner/src/Scanner.Infrastructure/Adapter/ScanLogFiles/ScanLogFile.cs:199-219 | One backward chunk: its last LF is the last LF below the start position, or, when it has none, the LF-free stretch below the start grows by the chunk. |
| Seeking.FileSeeker.SeekLastLineFromCurrentAndPositionOnStartOfIt | src/EasyKubeLogDDD/services/Scanner/src/Scanner.Infrastructure/Adapter/ScanLogFiles/ScanLogFile.cs:245-273 | For a start position within the file, it returns false, with the position unchanged, exactly when no LF precedes the position. From a start beyond the end it returns false. Otherwise it returns true and positions one past the previous LF, or at 0 if there is none (LineStartBefore). |
| Tailing.Reallocate | src/EasyKubeLogDDD/services/Scanner/src/Scanner.Infrastructure/Adapter/ScanLogFiles/ScanLogFile.cs:514-534 | The buffer rule. The buffer always holds toRead bytes afterwards. A missing or too-small buffer is replaced by one of exactly toRead bytes and the counter restarts. The counter is non-zero only on a kept buffer that is more than twice too big, and it then counts up by one. A big-enough buffer is replaced only after 20 over-sized calls, by one of exactly toRead bytes. The counter stays within 0..20. |
| Tailing.OverSizedCallsKeepBuffer | src/EasyKubeLogDDD/services/Scanner/src/Scanner.Infrastructure/Adapter/ScanLogFiles/ScanLogFile.cs:523-531 | A run of calls that each need less than half the buffer keeps the buffer and raises the counter by one per call. |
| Tailing.ShrinksOnTwentyFirstOverSizedCall | src/EasyKubeLogDDD/services/Scanner/src/Scanner.Infrastructure/Adapter/ScanLogFiles/ScanLogFile.cs:527-531 | From a fresh count, 20 over-sized calls keep the big buffer, with the counter at 20. The 21st call replaces it by one of exactly its own size and resets the counter. |
| Tailing.StartCursor | src/EasyKubeLogDDD/services/Scanner/src/Scanner.Infrastructure/Adapter/ScanLogFiles/ScanLogFile.cs:445 | No ensures; the body is the model: a cursor of -1 is replaced by the start of the last complete line. Tailing.InternalStepFromStartCursor and FileSet.DrainReestablishesCursor state its properties. |
| Tailing.InternalStep | src/EasyKubeLogDDD/services/Scanner/src/Scanner.Infrastructure/Adapter/ScanLogFiles/ScanLogFile.cs:441-492 | No ensures; the body is the model of the internal read, with every exception caught. Tailing.DeliveredReadIsCompleteLines, EmptyReadKeepsCursor, ShrunkFileResetsCursor, FaultingReadThrows, SecondReadWithoutNewBytesIsNoOp and OverlongLineStalls state its properties. |
| Tailing.ReadFrom | src/EasyKubeLogDDD/services/Scanner/src/Scanner.Infrastructure/Adapter/ScanLogFiles/ScanLogFile.cs:460-467 | No ensures; the body is the model: the window from the cursor is capped at max and flagged ReadLineContentExceedsSize when capped, and an empty window returns nothing. Tailing.DeliveredReadIsCompleteLines and EmptyReadKeepsCursor state its properties. |
| Tailing.CutWindow | src/EasyKubeLogDDD/services/Scanner/src/Scanner.Infrastructure/Adapter/ScanLogFiles/ScanLogFile.cs:469-512 | No ensures; the body is the model: the window goes through the reallocated buffer and is cut after its last LF, moving the cursor past it, or nothing is returned and the cursor stays. Tailing.CutWindowDelivers states its properties. |
| Tailing.ReadStep | src/EasyKubeLogDDD/services/Scanner/src/Scanner.Infrastructure/Adapter/ScanLogFiles/ScanLogFile.cs:411-419 | No ensures; the body is the model: the internal read, then an unguarded seek to the cursor when nothing came back, which throws on a closed stream or a cursor of -1. Tailing.FaultingReadThrows and FileSet.UnterminatedFileThrows state its properties. |
| Tailing.Opened | src/EasyKubeLogDDD/services/Scanner/src/Scanner.Infrastructure/Adapter/ScanLogFiles/ScanLogFile.cs:372-376 | A newly opened reader has the file's bytes, is not closed, has no buffer, and its cursor is on the start of the last complete line (-1 when the file has none). |
| Tailing.Disposed | src/EasyKubeLogDDD/services/Scanner/src/Scanner.Infrastructure/Adapter/ScanLogFiles/ScanLogFile.cs:378-382 | After Dispose the stream is closed and the cursor is -1; the bytes and the buffer are unchanged. |
| Tailing.DeliveredReadIsCompleteLines | src/EasyKubeLogDDD/services/Scanner/src/Scanner.Infrastructure/Adapter/ScanLogFiles/ScanLogFile.cs:447-485 | A read that hands back bytes uses the window [c, c + min(available, max)) from its start cursor c, where the cursor is re-established when it was -1. It returns exactly data[c..c'], which ends in LF, and moves the cursor to c'. The rest of the window holds no LF. The flag is ReadLineContentExceedsSize exactly when available > max, at most max bytes come back, and the outer read returns the same result. |
| Tailing.EmptyReadKeepsCursor | src/EasyKubeLogDDD/services/Scanner/src/Scanner.Infrastructure/Adapter/ScanLogFiles/ScanLogFile.cs:466-480 | A read from a cursor inside the file that hands back nothing reports BufferSufficient even when the window was capped. Its cursor stays where it started, its window holds no LF, and the outer read succeeds. |
| Tailing.ShrunkFileResetsCursor | src/EasyKubeLogDDD/services/Scanner/src/Scanner.Infrastructure/Adapter/ScanLogFiles/ScanLogFile.cs:452-458 | With the cursor beyond the end of a shrunk file, the read returns nothing and resets the cursor to the start of the last complete line. The outer read succeeds exactly when that start exists. |
| Tailing.FaultingReadThrows | src/EasyKubeLogDDD/services/Scanner/src/Scanner.Infrastructure/Adapter/ScanLogFiles/ScanLogFile.cs:487-491 | On a closed stream, or with cursor -1 in a file without LF, the internal read swallows the exception, returns nothing and changes nothing. The unguarded seek of the outer read then throws ObjectDisposedException or IOException. |
| Tailing.SecondReadWithoutNewBytesIsNoOp | src/EasyKubeLogDDD/services/Scanner/src/Scanner.Infrastructure/Adapter/ScanLogFiles/ScanLogFile.cs:411-419 | From a start cursor inside the file, after a read that reported BufferSufficient, a second read on the same bytes returns nothing, keeps the cursor and succeeds. After a shrink reset (a start cursor beyond the end) this does not hold: the next read can hand back the last complete line again, because the reset puts the cursor on its start. |
| Tailing.WindowFreeOfLineFeedReadsNothing | src/EasyKubeLogDDD/services/Scanner/src/Scanner.Infrastructure/Adapter/ScanLogFiles/ScanLogFile.cs:466-480 | A read from a cursor inside the file whose window holds no LF hands back nothing, keeps the cursor, and the outer read succeeds. This is the converse of EmptyReadKeepsCursor. |
| Tailing.OverlongLineStalls | src/EasyKubeLogDDD/services/Scanner/src/Scanner.Infrastructure/Adapter/ScanLogFiles/ScanLogFile.cs:476-480 | When the next max bytes hold no LF, a read returns nothing and changes nothing but the buffer, whatever follows them. |
| Reader.FileReadOnlyWrapper.constructor | src/EasyKubeLogDDD/services/Scanner/src/Scanner.Infrastructure/Adapter/ScanLogFiles/ScanLogFile.cs:372-376 | Opening a file yields the reader Tailing.Opened describes. |
| Reader.FileReadOnlyWrapper.Dispose | src/EasyKubeLogDDD/services/Scanner/src/Scanner.Infrastructure/Adapter/ScanLogFiles/ScanLogFile.cs:378-382 | The new state is Tailing.Disposed of the old one. |
| Reader.FileReadOnlyWrapper.SeekLastLine | src/EasyKubeLogDDD/services/Scanner/src/Scanner.Infrastructure/Adapter/ScanLogFiles/ScanLogFile.cs:428-436 | Returns the start of the last complete line (Lines.LastLineStart), or -1, or the exception a closed stream throws. |
| Reader.FileReadOnlyWrapper.CheckIfBufferNeedsReallocation | src/EasyKubeLogDDD/services/Scanner/src/Scanner.Infrastructure/Adapter/ScanLogFiles/ScanLogFile.cs:514-534 | The buffer and the counter change exactly as Tailing.Reallocate says, and nothing else changes. |
| Reader.FileReadOnlyWrapper.FillBuffer | src/EasyKubeLogDDD/services/Scanner/src/Scanner.Infrastructure/Adapter/ScanLogFiles/ScanLogFile.cs:471-472 | The first toRead buffer cells hold the file bytes from the stream position, and the position advances by toRead. |
| Reader.FileReadOnlyWrapper.SetCurrentPositionAndResetBufferIfNeeded | src/EasyKubeLogDDD/services/Scanner/src/Scanner.Infrastructure/Adapter/ScanLogFiles/ScanLogFile.cs:494-512 | Returns the buffer's bytes through the LF at lastIndex. The cursor moves one past it, clamped at 0, or to the stream position when the LF ends the buffer. Nothing else changes. |
| Reader.FileReadOnlyWrapper.EstablishCursor | src/EasyKubeLogDDD/services/Scanner/src/Scanner.Infrastructure/Adapter/ScanLogFiles/ScanLogFile.cs:445 | A cursor of -1 is replaced by the start of the last complete line. Reports false, changing nothing, when that seek threw on a closed stream. |
| Reader.FileReadOnlyWrapper.ReadAtCursor | src/EasyKubeLogDDD/services/Scanner/src/Scanner.Infrastructure/Adapter/ScanLogFiles/ScanLogFile.cs:447-458 | With the cursor established, performs exactly Tailing.InternalStep: a throwing seek, a shrunk-file reset, or the read proper. |
| Reader.FileReadOnlyWrapper.ReadFromCursor | src/EasyKubeLogDDD/services/Scanner/src/Scanner.Infrastructure/Adapter/ScanLogFiles/ScanLogFile.cs:460-467 | Caps the window at maxStringSize, sets the flag accordingly, and returns nothing on an empty window (Tailing.ReadFrom). |
| Reader.FileReadOnlyWrapper.ReadWindow | src/EasyKubeLogDDD/services/Scanner/src/Scanner.Infrastructure/Adapter/ScanLogFiles/ScanLogFile.cs:469-485 | Reads the window through the buffer and cuts it after its last LF, with the new state and result of Tailing.CutWindow. |
| Reader.FileReadOnlyWrapper.InternalReadLineFromCurrentPositionToEnd | src/EasyKubeLogDDD/services/Scanner/src/Scanner.Infrastructure/Adapter/ScanLogFiles/ScanLogFile.cs:441-492 | The new state and the result are exactly Tailing.InternalStep of the old state, every exception caught. Its lemmas above state what that delivers. |
| Reader.FileReadOnlyWrapper.ReadLineFromCurrentPositionToEnd | src/EasyKubeLogDDD/services/Scanner/src/Scanner.Infrastructure/Adapter/ScanLogFiles/ScanLogFile.cs:411-419 | The new state and the outcome are Tailing.ReadStep. After an empty success the stream sits on the cursor. |
| FileSet.CappedRead | src/EasyKubeLogDDD/services/Scanner/src/Scanner.Infrastructure/Adapter/ScanLogFiles/ScanLogFile.cs:102 | No ensures; the body is the model: the outer read with the 64 KiB cap of a change notification. FileSet.OneReadInsideFile states its properties. |
| FileSet.Loop | src/EasyKubeLogDDD/services/Scanner/src/Scanner.Infrastructure/Adapter/ScanLogFiles/ScanLogFile.cs:94-107 | The change read loop runs between 1 and maxLoop reads, and ends on a capped read only when it used all maxLoop reads. |
| FileSet.Drain | src/EasyKubeLogDDD/services/Scanner/src/Scanner.Infrastructure/Adapter/ScanLogFiles/ScanLogFile.cs:94-107 | The read loop with 64 KiB reads performs between 1 and 1000 reads. |
| FileSet.OneReadInsideFile | src/EasyKubeLogDDD/services/Scanner/src/Scanner.Infrastructure/Adapter/ScanLogFiles/ScanLogFile.cs:101-102 | One 64 KiB read from a cursor inside the file succeeds. It returns data[cursor..cursor'], which ends in LF, or nothing with the cursor kept. After BufferSufficient no LF is left in the next window. |
| FileSet.DrainDeliversContiguousLines | src/EasyKubeLogDDD/services/Scanner/src/Scanner.Infrastructure/Adapter/ScanLogFiles/ScanLogFile.cs:94-107 | No loss and no duplication: from a start cursor c inside the file, the loop throws nothing and hands back exactly data[c..c']. Each non-empty piece ends in LF, and c' is either c itself or just after an LF. After a final BufferSufficient only an unterminated fragment is left in the window. |
| FileSet.LoopDeliversContiguousLines | src/EasyKubeLogDDD/services/Scanner/src/Scanner.Infrastructure/Adapter/ScanLogFiles/ScanLogFile.cs:98-107 | The same for any read that reads complete lines, by induction on the remaining reads. |
| FileSet.UnterminatedFileThrows | src/EasyKubeLogDDD/services/Scanner/src/Scanner.Infrastructure/Adapter/ScanLogFiles/ScanLogFile.cs:411-419 | For a file with no LF and cursor -1, the first read of a change throws IOException and the loop ends with nothing read. |
| FileSet.DrainPass | src/EasyKubeLogDDD/services/Scanner/src/Scanner.Infrastructure/Adapter/ScanLogFiles/ScanLogFile.cs:98-107 | One pass of the loop: on an exception or a BufferSufficient read, or when the counter reaches 0, the loop has ended with that state, exception and output; otherwise it resumes with one read fewer. |
| FileSet.AddStep | src/EasyKubeLogDDD/services/Scanner/src/Scanner.Infrastructure/Adapter/ScanLogFiles/ScanLogFile.cs:123-127 | No ensures; the body is the model: opening a missing file throws; adding a tracked name throws; otherwise the name maps to a freshly opened reader. FileSet.CreatedOnTrackedNameAbortsBatch and ChangedOnUntrackedNameOnlyAdds state its properties. |
| FileSet.RemoveStep | src/EasyKubeLogDDD/services/Scanner/src/Scanner.Infrastructure/Adapter/ScanLogFiles/ScanLogFile.cs:113-121 | No ensures; the body is the model: a tracked name is removed, an untracked one is ignored. FileSet.DeletedRemovesOnlyItsFile states its properties. |
| FileSet.ChangedFiles | src/EasyKubeLogDDD/services/Scanner/src/Scanner.Infrastructure/Adapter/ScanLogFiles/ScanLogFile.cs:85-108 | No ensures; the body is the model: an untracked name is only added, because of the stale snapshot; a tracked one runs the read loop. FileSet.ChangedBracketsReads and ChangedOnUntrackedNameOnlyAdds state its properties. |
| FileSet.ChangedStep | src/EasyKubeLogDDD/services/Scanner/src/Scanner.Infrastructure/Adapter/ScanLogFiles/ScanLogFile.cs:81-111 | No ensures; the body is the model: ChangedFiles between the start event and, unless something threw, the completed event. FileSet.ChangedBracketsReads, ChangedOnUntrackedNameOnlyAdds and ChangedOnUnterminatedFileAbortsBatch state its properties. |
| FileSet.EntryStep | src/EasyKubeLogDDD/services/Scanner/src/Scanner.Infrastructure/Adapter/ScanLogFiles/ScanLogFile.cs:53-70 | No ensures; the body is the model: dispatch on the notification kind. FileSet.DeletedRemovesOnlyItsFile and CreatedOnTrackedNameAbortsBatch state its properties. |
| FileSet.BatchStep | src/EasyKubeLogDDD/services/Scanner/src/Scanner.Infrastructure/Adapter/ScanLogFiles/ScanLogFile.cs:46-77 | The number of notifications that ran to completion never exceeds the batch length. The body is the model: the notifications in order, with the first exception ending the batch. FileSet.BatchRunsInOrder and BatchStepExtends state its properties. |
| FileSet.BatchRunsInOrder | src/EasyKubeLogDDD/services/Scanner/src/Scanner.Infrastructure/Adapter/ScanLogFiles/ScanLogFile.cs:49-76 | Notifications run in order: a batch is its first k notifications followed by the rest, and when only k ran to completion, notification k threw and the batch stopped in its state. |
| FileSet.BatchStepExtends | src/EasyKubeLogDDD/services/Scanner/src/Scanner.Infrastructure/Adapter/ScanLogFiles/ScanLogFile.cs:51-71 | One more notification either ends the batch with its state or extends the completed prefix by one. |
| FileSet.CreatedOnTrackedNameAbortsBatch | src/EasyKubeLogDDD/services/Scanner/src/Scanner.Infrastructure/Adapter/ScanLogFiles/ScanLogFile.cs:123-127 | Created on an already-tracked name throws, changes nothing, and skips the rest of the batch. |
| FileSet.DeletedRemovesOnlyItsFile | src/EasyKubeLogDDD/services/Scanner/src/Scanner.Infrastructure/Adapter/ScanLogFiles/ScanLogFile.cs:113-121 | Deleted on an untracked name changes nothing. On a tracked name it removes that key only, keeps every other reader, and posts no event. |
| FileSet.ChangedBracketsReads | src/EasyKubeLogDDD/services/Scanner/src/Scanner.Infrastructure/Adapter/ScanLogFiles/ScanLogFile.cs:81-111 | A change posts CheckLogFileStart and, unless an exception escaped, CheckLogFileCompleted, and nothing else. On a tracked file it updates that file only, by at most 1000 reads that stop at the first BufferSufficient. |
| FileSet.ChangedOnUntrackedNameOnlyAdds | src/EasyKubeLogDDD/services/Scanner/src/Scanner.Infrastructure/Adapter/ScanLogFiles/ScanLogFile.cs:85-92 | A change on an untracked name present on disk adds it, opened on its last complete line, posts both events, and reads nothing. |
| FileSet.ChangedOnUnterminatedFileAbortsBatch | src/EasyKubeLogDDD/services/Scanner/src/Scanner.Infrastructure/Adapter/ScanLogFiles/ScanLogFile.cs:81-111 | A change on a tracked file that never held an LF posts only the start event, changes nothing else, and ends the batch. |
| FileList.EventProducer.constructor | src/EasyKubeLogDDD/services/Scanner/src/Scanner.Infrastructure/Adapter/ScanLogFiles/ScanLogFile.cs:38 | A new producer has posted nothing: the event trace starts empty. |
| FileList.EventProducer.PostEvent | src/EasyKubeLogDDD/services/Scanner/src/Scanner.Infrastructure/Adapter/ScanLogFiles/ScanLogFile.cs:83 | Appends the event to the trace. |
| FileList.AutoCurrentFileList.constructor | src/EasyKubeLogDDD/services/Scanner/src/Scanner.Infrastructure/Adapter/ScanLogFiles/ScanLogFile.cs:40-44 | A new list tracks no file and posts to the given producer. |
| FileList.AutoCurrentFileList.HandleFileChanges | src/EasyKubeLogDDD/services/Scanner/src/Scanner.Infrastructure/Adapter/ScanLogFiles/ScanLogFile.cs:46-77 | The new state, meaning the tracked readers and the event trace, is FileSet.BatchStep of the old one: in order, stopping at the first exception. |
| FileList.AutoCurrentFileList.HandleEntry | src/EasyKubeLogDDD/services/Scanner/src/Scanner.Infrastructure/Adapter/ScanLogFiles/ScanLogFile.cs:53-70 | Dispatches one notification by its kind: FileSet.EntryStep, with the exception it raised. |
| FileList.AutoCurrentFileList.FileChanged | src/EasyKubeLogDDD/services/Scanner/src/Scanner.Infrastructure/Adapter/ScanLogFiles/ScanLogFile.cs:81-111 | The new state and the exception are FileSet.ChangedStep. The lines written out are exactly those the read loop handed back, and none for an untracked name. |
| FileList.AutoCurrentFileList.ReadOrAdd | src/EasyKubeLogDDD/services/Scanner/src/Scanner.Infrastructure/Adapter/ScanLogFiles/ScanLogFile.cs:85-108 | Between the two events, it adds an untracked name or runs the read loop on a tracked one (FileSet.ChangedFiles). |
| FileList.AutoCurrentFileList.ReadTracked | src/EasyKubeLogDDD/services/Scanner/src/Scanner.Infrastructure/Adapter/ScanLogFiles/ScanLogFile.cs:96-108 | Runs the read loop on one tracked reader: that reader ends as FileSet.Drain says, and every other reader is unchanged. |
| FileList.AutoCurrentFileList.ReadUntilSufficient | src/EasyKubeLogDDD/services/Scanner/src/Scanner.Infrastructure/Adapter/ScanLogFiles/ScanLogFile.cs:94-107 | The counted read loop ends in FileSet.Drain's state, exception and lines. |
| FileList.AutoCurrentFileList.ReadPass | src/EasyKubeLogDDD/services/Scanner/src/Scanner.Infrastructure/Adapter/ScanLogFiles/ScanLogFile.cs:101-106 | One pass: a read, its bytes appended, then stop on an exception, a BufferSufficient read or the counter reaching 0; otherwise it resumes with the rest of Drain. |
| FileList.AutoCurrentFileList.RemoveFile | src/EasyKubeLogDDD/services/Scanner/src/Scanner.Infrastructure/Adapter/ScanLogFiles/ScanLogFile.cs:113-121 | The tracked files become FileSet.RemoveStep of the old ones, and the removed reader is disposed, with cursor -1. |
| FileList.AutoCurrentFileList.AddFile | src/EasyKubeLogDDD/services/Scanner/src/Scanner.Infrastructure/Adapter/ScanLogFiles/ScanLogFile.cs:123-127 | FileSet.AddStep: a missing file or a tracked name throws and changes nothing; otherwise the name maps to a freshly opened reader and the other readers are kept. |

## Left out

- File I/O. `FileStream` and `FileStreamWrapper` are replaced by `ByteStream` over a byte sequence. Opening a file by name reads its bytes from a `disk` map that the batch methods take as a parameter, and a name missing from it raises FileNotFoundException. The environment may append to or truncate the bytes between calls; the model has no separate operation for that.
- `Encoding.Default.GetString`: results stay byte sequences. The emptiness test at ScanLogFile.cs:414 is made on the bytes. This is the same test as on the decoded string, because a non-empty byte sequence never decodes to an empty string.
- `Console.WriteLine`, `Console.Error.Write` and `Trace.TraceError` are left out. The console output of a change is returned as `written` instead.
- `IEventProducer` is modelled only as an appended event trace.
- `ScanLogFile` (the thin class that forwards batches), `ScanLogFile.GetChanges` (it only throws NotImplementedException), `GetFileWrapper` and the test-only `FOR_UNIT_TEST_SLOW_FUNCTION_ReadLineCharByCharTillCRLF` are not part of this model.
- Concurrency: batches are handled one at a time.
- Integer widths: `long` and `int`, and the casts `(int)toRead` and `(int)current`, are unbounded integers. The values involved stay within the 64 KiB cap and file sizes.
- AddFile: when the name is already tracked, the source leaves the just-opened reader undisposed. The model drops that reader, so the open handle it leaks is not represented.
- Seeking.FileSeeker.SeekNextLineFeedInNegativeDirectionAndPositionStreamOnIt requires `steps > 0`, because with 0 the source loops forever. It also requires an open stream, which every caller guarantees: `SeekLastLine` seeks first, and that seek throws on a closed stream.
- The lines of the seek scenario are LF-terminated, which is `Environment.NewLine` on Linux. A CR LF terminator is not modelled separately: the CR is just another line byte.
