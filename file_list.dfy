/**
 * `AutoCurrentFileList`: the set of tracked log files, kept in step with the
 * file-system notifications of each batch, and the events it posts to the event
 * producer. Each method is proved to perform the step of the value model in
 * file_set.dfy, where the lifecycle properties are proved.
 */
module FileList {
  import opened Wrappers
  import opened Lines
  import opened Tailing
  import opened Reader
  import opened FileSet

  /** The event producer the list posts to; it records what was posted, oldest first. */
  class EventProducer {
    var events: seq<Event>

    constructor ()
      ensures events == []
    {
      events := [];
    }

    method PostEvent(e: Event)
      modifies this
      ensures events == old(events) + [e]
    {
      events := events + [e];
    }
  }

  /** A tracked file: its name and the reader open on it. */
  datatype CurrentFileEntry = CurrentFileEntry(fileName: string, currentFile: FileReadOnlyWrapper)

  class AutoCurrentFileList {
    /** `_fileList`: the tracked files by name. */
    var fileList: map<string, CurrentFileEntry>
    /** `_producer`: where the list posts its events. */
    const producer: EventProducer

    ghost var Repr: set<object>

    /** Every entry sits under its own name, and the readers own disjoint footprints. */
    ghost predicate Valid()
      reads this, Repr
    {
      && this in Repr && producer !in Repr
      && (forall n | n in fileList ::
            && fileList[n].fileName == n
            && fileList[n].currentFile in Repr
            && fileList[n].currentFile.Repr <= Repr
            && this !in fileList[n].currentFile.Repr
            && fileList[n].currentFile.Valid())
      && (forall n, m | n in fileList && m in fileList && n != m ::
            fileList[n].currentFile.Repr !! fileList[m].currentFile.Repr)
    }

    /** The tracked files as values. */
    ghost function Files(): map<string, ReaderState>
      reads this, Repr
      requires Valid()
    {
      map n | n in fileList :: fileList[n].currentFile.Model()
    }

    ghost function State(): ListState
      reads this, Repr, producer
      requires Valid()
    {
      ListState(Files(), producer.events)
    }

    /** An empty list that posts to `producer`. */
    constructor (producer: EventProducer)
      ensures Valid() && fresh(Repr) && this.producer == producer
      ensures State() == ListState(map[], producer.events)
    {
      this.producer := producer;
      fileList := map[];
      Repr := {this};
    }

    /**
     * Processes the notifications of a batch in order. The first exception ends
     * the batch: it is caught once, around the whole loop.
     */
    method HandleFileChanges(fileChanges: seq<FileEntry>, disk: map<string, seq<byte>>)
      requires Valid()
      modifies Repr, producer
      ensures Valid() && fresh(Repr - old(Repr))
      ensures State() == BatchStep(old(State()), fileChanges, disk).state
    {
      ghost var st0 := State();
      var i := 0;
      while i < |fileChanges|
        invariant 0 <= i <= |fileChanges|
        invariant Valid() && fresh(Repr - old(Repr))
        invariant BatchStep(st0, fileChanges[..i], disk) == BatchResult(State(), i)
      {
        ghost var before := State();
        var thrown := HandleEntry(fileChanges[i], disk);
        BatchStepExtends(st0, fileChanges, disk, i, before, State(), thrown);
        if thrown.Some? {
          return;
        }
        i := i + 1;
      }
      assert fileChanges[..i] == fileChanges;
    }

    /** One notification, dispatched on its kind; the result is the exception it raised. */
    method HandleEntry(entry: FileEntry, disk: map<string, seq<byte>>) returns (thrown: Option<Fault>)
      requires Valid()
      modifies Repr, producer
      ensures Valid() && fresh(Repr - old(Repr))
      ensures (State(), thrown) == EntryStep(old(State()), entry, disk)
    {
      match entry.changeType {
        case Created =>
          thrown := AddFile(entry.fileName, disk);
        case Deleted =>
          RemoveFile(entry.fileName);
          thrown := None;
        case Changed =>
          var written;
          thrown, written := FileChanged(entry.fileName, disk);
      }
    }

    /**
     * A Changed notification: post CheckLogFileStart, then read the file until a
     * read reports BufferSufficient, at most 1000 times, then post
     * CheckLogFileCompleted. An untracked name is added first but looked up again
     * in the snapshot taken before the add, so it is not read this time. An
     * exception skips the completed event and is handed to the caller. `written`
     * is what the reads handed back, in order (the source writes it to the console).
     */
    method FileChanged(entryFileName: string, disk: map<string, seq<byte>>)
      returns (thrown: Option<Fault>, written: seq<seq<byte>>)
      requires Valid()
      modifies Repr, producer
      ensures Valid() && fresh(Repr - old(Repr))
      ensures (State(), thrown) == ChangedStep(old(State()), entryFileName, disk)
      ensures entryFileName in old(Files()) ==> written == Drain(old(Files())[entryFileName], MaxLoop).lines
      ensures entryFileName !in old(Files()) ==> written == []
    {
      label Entry:
      producer.PostEvent(CheckLogFileStart(entryFileName));
      Unaffected@Entry();
      thrown, written := ReadOrAdd(entryFileName, disk);
      // An exception leaves before the completed event is posted.
      if thrown.None? {
        label Handled:
        producer.PostEvent(CheckLogFileCompleted(entryFileName));
        Unaffected@Handled();
      } else {
        assert producer.events == old(producer.events) + [CheckLogFileStart(entryFileName)] + [];
      }
    }

    /** Between the events of FileChanged: add an untracked name, or run the read
        loop on a tracked one (see FileSet.ChangedFiles). */
    method ReadOrAdd(entryFileName: string, disk: map<string, seq<byte>>)
      returns (thrown: Option<Fault>, written: seq<seq<byte>>)
      requires Valid()
      modifies Repr
      ensures Valid() && fresh(Repr - old(Repr))
      ensures (Files(), thrown) == ChangedFiles(old(Files()), entryFileName, disk)
      ensures entryFileName in old(Files()) ==> written == Drain(old(Files())[entryFileName], MaxLoop).lines
      ensures entryFileName !in old(Files()) ==> written == []
    {
      var list := fileList;
      written := [];
      if entryFileName !in list {
        thrown := AddFile(entryFileName, disk);
        // The name is looked up again, but in `list`, the map as it was before
        // the add: it is not there, so nothing is read on this notification.
      } else {
        thrown, written := ReadTracked(entryFileName);
      }
    }

    /** The read loop on the reader tracked under `name`: it changes that reader only. */
    method ReadTracked(name: string) returns (thrown: Option<Fault>, written: seq<seq<byte>>)
      requires Valid() && name in fileList
      modifies Repr
      ensures Valid() && fresh(Repr - old(Repr))
      ensures fileList == old(fileList)
      ensures Files() == old(Files())[name := Files()[name]]
      ensures DrainEnds(Drain(old(Files())[name], MaxLoop), Files()[name], thrown, written)
    {
      var reader := fileList[name].currentFile;
      thrown, written := ReadUntilSufficient(reader);
      Repr := Repr + reader.Repr;
      OneReaderStepped(name);
    }

    /** The read loop of FileChanged: see FileSet.Drain. */
    static method ReadUntilSufficient(reader: FileReadOnlyWrapper) returns (thrown: Option<Fault>, written: seq<seq<byte>>)
      requires reader.Valid()
      modifies reader.Repr
      ensures reader.Valid() && fresh(reader.Repr - old(reader.Repr))
      ensures DrainEnds(Drain(old(reader.Model()), MaxLoop), reader.Model(), thrown, written)
    {
      ghost var d0 := Drain(reader.Model(), MaxLoop);
      ghost var rest := d0;
      DrainStarts(reader.Model(), MaxLoop);
      var maxLoop := MaxLoop;
      var stop := false;
      written := [];
      thrown := None;
      while !stop
        invariant reader.Valid() && fresh(reader.Repr - old(reader.Repr))
        invariant !stop ==> 1 <= maxLoop && rest == Drain(reader.Model(), maxLoop) && Continues(d0, written, rest)
        invariant stop ==> DrainEnds(d0, reader.Model(), thrown, written)
        decreases if stop then 0 else maxLoop
      {
        thrown, written, maxLoop, stop, rest := ReadPass(reader, written, maxLoop, d0, rest);
      }
    }

    /**
     * One pass of the read loop: one read, its bytes appended to `written`, and the
     * decision to stop: an exception, a read that reported BufferSufficient, or the
     * counter running down to 0. When the loop goes on, `rest1` is what the rest of
     * it yields.
     */
    static method ReadPass(reader: FileReadOnlyWrapper, written: seq<seq<byte>>, maxLoop: int,
                           ghost d: Drained, ghost rest: Drained)
      returns (thrown: Option<Fault>, written1: seq<seq<byte>>, maxLoop1: int, stop: bool, ghost rest1: Drained)
      requires reader.Valid() && 1 <= maxLoop
      requires rest == Drain(reader.Model(), maxLoop) && Continues(d, written, rest)
      modifies reader.Repr
      ensures reader.Valid() && fresh(reader.Repr - old(reader.Repr))
      ensures !stop ==> 1 <= maxLoop1 < maxLoop && rest1 == Drain(reader.Model(), maxLoop1) && Continues(d, written1, rest1)
      ensures stop ==> DrainEnds(d, reader.Model(), thrown, written1)
    {
      ghost var m := reader.Model();
      var r := reader.ReadLineFromCurrentPositionToEnd(MaxContentLengthToForwardForEachScanInBytes);
      ghost var m1 := reader.Model();
      maxLoop1 := maxLoop;
      rest1 := rest;
      if r.Failure? {
        thrown, written1, stop := Some(r.fault), written, true;
      } else {
        thrown := None;
        written1 := written + [r.value.line];
        stop := r.value.sizeExceeded == BufferSufficient;
        if !stop {
          maxLoop1 := maxLoop - 1;
          stop := maxLoop1 <= 0;
          if !stop {
            rest1 := Drain(m1, maxLoop1);
          }
        }
      }
      PassDecided(d, written, m, maxLoop, m1, r, thrown, written1, maxLoop1, stop, rest1);
    }

    /** A Deleted notification: a tracked file is dropped and its reader disposed;
        an untracked name is ignored. */
    method RemoveFile(entryFileName: string)
      requires Valid()
      modifies Repr
      ensures Valid() && Repr == old(Repr)
      ensures Files() == RemoveStep(old(Files()), entryFileName)
      ensures entryFileName in old(fileList) ==>
        var removed := old(fileList[entryFileName].currentFile);
        removed.stream.disposed && removed.cursor == -1
    {
      if entryFileName in fileList {
        var value := fileList[entryFileName];
        fileList := fileList - {entryFileName};
        EntryRemoved(entryFileName);
        label Removed:
        value.currentFile.Dispose();
        Framed@Removed(value.currentFile.Repr);
      }
    }

    /** A Created notification: open the file, then add it under its name, which
        throws when the name is already tracked (the new reader is then dropped). */
    method AddFile(entryFileName: string, disk: map<string, seq<byte>>) returns (thrown: Option<Fault>)
      requires Valid()
      modifies this
      ensures Valid() && fresh(Repr - old(Repr))
      ensures var r := AddStep(old(Files()), entryFileName, disk);
        && (r.Failure? ==> thrown == Some(r.fault) && Files() == old(Files()))
        && (r.Success? ==> thrown == None && Files() == r.value)
    {
      if entryFileName !in disk {
        return Some(FileNotFound);
      }
      var fileStream := new FileReadOnlyWrapper(entryFileName, disk[entryFileName]);
      if entryFileName in fileList {
        Framed({});
        return Some(DuplicateKey);
      }
      fileList := fileList[entryFileName := CurrentFileEntry(entryFileName, fileStream)];
      Repr := Repr + fileStream.Repr;
      EntryAdded(entryFileName);
      thrown := None;
    }

    /** Posting an event changes no tracked file. */
    twostate lemma Unaffected()
      requires old(Valid()) && unchanged(this) && unchanged(old(Repr))
      ensures Valid() && Repr == old(Repr) && Files() == old(Files())
    {
    }

    /** Tracking a fresh reader under a new name changes no other reader. */
    twostate lemma EntryAdded(name: string)
      requires old(Valid()) && name !in old(fileList) && name in fileList
      requires fileList == old(fileList)[name := CurrentFileEntry(name, fileList[name].currentFile)]
      requires var reader := fileList[name].currentFile;
        && reader.Valid() && this !in reader.Repr && producer !in reader.Repr && reader.Repr !! old(Repr)
        && Repr == old(Repr) + reader.Repr
      requires forall o: object | o in old(Repr) && o != this :: unchanged(o)
      ensures Valid() && Files() == old(Files())[name := fileList[name].currentFile.Model()]
    {
      OthersKeptOnAdd(name);
      var files, files0 := Files(), old(Files())[name := fileList[name].currentFile.Model()];
      forall n | n in files
        ensures n in files0 && files[n] == files0[n]
      {
      }
    }

    /** The step of EntryAdded for the readers tracked before, and the list invariant after it. */
    twostate lemma OthersKeptOnAdd(name: string)
      requires old(Valid()) && name !in old(fileList) && name in fileList
      requires fileList == old(fileList)[name := CurrentFileEntry(name, fileList[name].currentFile)]
      requires var reader := fileList[name].currentFile;
        && reader.Valid() && this !in reader.Repr && producer !in reader.Repr && reader.Repr !! old(Repr)
        && Repr == old(Repr) + reader.Repr
      requires forall o: object | o in old(Repr) && o != this :: unchanged(o)
      ensures Valid()
      ensures forall n | n in old(fileList) ::
        fileList[n].currentFile.Valid() && fileList[n].currentFile.Model() == old(Files())[n]
    {
      forall n | n in old(fileList)
        ensures fileList[n].currentFile.Repr == old(fileList[n].currentFile.Repr)
        ensures fileList[n].currentFile.Valid() && fileList[n].currentFile.Model() == old(Files())[n]
      {
        KeptThrough(n);
      }
    }

    /** Dropping a name from the map changes no other reader. */
    twostate lemma EntryRemoved(name: string)
      requires old(Valid()) && name in old(fileList)
      requires fileList == old(fileList) - {name} && Repr == old(Repr)
      requires forall o: object | o in old(Repr) && o != this :: unchanged(o)
      ensures Valid() && Files() == old(Files()) - {name}
      ensures forall n | n in fileList :: fileList[n].currentFile.Repr !! old(fileList[name].currentFile.Repr)
    {
      forall n | n in fileList
        ensures fileList[n].currentFile.Repr == old(fileList[n].currentFile.Repr)
        ensures fileList[n].currentFile.Valid() && fileList[n].currentFile.Model() == old(Files())[n]
      {
        KeptThrough(n);
      }
    }

    /** A reader still tracked under `n`, none of whose objects changed, is as it was. */
    twostate lemma KeptThrough(n: string)
      requires old(Valid()) && n in old(fileList) && n in fileList && fileList[n] == old(fileList[n])
      requires forall o: object | o in old(Repr) && o != this :: unchanged(o)
      ensures fileList[n].currentFile.Repr == old(fileList[n].currentFile.Repr)
      ensures fileList[n].currentFile.Valid() && fileList[n].currentFile.Model() == old(fileList[n].currentFile.Model())
    {
      var q := fileList[n].currentFile;
      assert q in old(q.Repr) && unchanged(q);
      assert forall o | o in q.Repr :: o in old(Repr) && o != this;
    }

    /** A change confined to objects outside every tracked reader's footprint
        changes no tracked reader. */
    twostate lemma Framed(changed: set<object>)
      requires old(Valid())
      requires fileList == old(fileList) && Repr == old(Repr)
      requires forall n | n in fileList :: old(fileList[n].currentFile.Repr) !! changed
      requires forall o: object | o in old(Repr) && o !in changed :: unchanged(o)
      ensures Valid() && Files() == old(Files())
    {
    }

    /** A change confined to the footprint of the reader under `name`, which it
        may grow by fresh objects, changes that reader only. */
    twostate lemma OneReaderStepped(name: string)
      requires old(Valid()) && name in old(fileList)
      requires fileList == old(fileList)
      requires fileList[name].currentFile.Valid()
      requires fresh(fileList[name].currentFile.Repr - old(fileList[name].currentFile.Repr))
      requires Repr == old(Repr) + fileList[name].currentFile.Repr
      requires forall o: object | o in old(Repr) && o != this && o !in old(fileList[name].currentFile.Repr) :: unchanged(o)
      ensures Valid() && Files() == old(Files())[name := fileList[name].currentFile.Model()]
    {
      var r := fileList[name].currentFile;
      forall n | n in fileList && n != name
        ensures fileList[n].currentFile.Repr == old(fileList[n].currentFile.Repr)
        ensures fileList[n].currentFile.Repr !! r.Repr
        ensures fileList[n].currentFile.Valid() && fileList[n].currentFile.Model() == old(Files())[n]
      {
        // Another reader: its footprint is disjoint from the stepped one's, so
        // none of its objects changed and the fresh ones are not among them.
        var q := fileList[n].currentFile;
        assert old(q.Repr) !! old(r.Repr);
        assert q in old(q.Repr);
        assert unchanged(q);
        assert forall o | o in q.Repr :: o in old(Repr) && o != this && o !in old(r.Repr);
      }
      StillValid(name);
      forall n | n in fileList
        ensures Files()[n] == old(Files())[name := r.Model()][n]
      {
      }
    }

    /** The list invariant after a step of the reader under `name` that left every other reader alone. */
    twostate lemma StillValid(name: string)
      requires old(Valid()) && name in old(fileList)
      requires fileList == old(fileList)
      requires fileList[name].currentFile.Valid()
      requires fresh(fileList[name].currentFile.Repr - old(fileList[name].currentFile.Repr))
      requires Repr == old(Repr) + fileList[name].currentFile.Repr
      requires this !in fileList[name].currentFile.Repr
      requires forall n | n in fileList && n != name ::
        && fileList[n].currentFile.Repr == old(fileList[n].currentFile.Repr)
        && fileList[n].currentFile.Repr !! fileList[name].currentFile.Repr
        && fileList[n].currentFile.Valid()
      ensures Valid()
    {
    }
  }
}
