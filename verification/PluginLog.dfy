/** `SyncML_PlugIn_WBXMLLog`: the undo log of one plugin tree, kept in a file. */
module PluginLog {
  import opened DmText
  import opened UndoLog
  import opened Wbxml
  import opened LogLayout

  /** The position of the last record, as the end of the file tells it. */
  function TailWord(f: seq<Byte>): int
    requires |f| >= 8
  {
    WordAt(f, |f| - 8)
  }

  /** Where the byte is read that should open the last record. A negative position cannot be sought, and
      the byte after the word just read is taken. */
  function Probe(f: seq<Byte>): nat
    requires |f| >= 8
  {
    if TailWord(f) >= 0 then TailWord(f) else |f| - 4
  }

  predicate EntryAt(f: seq<Byte>, i: nat) {
    i < |f| && f[i] == ENTRY_TAG
  }

  /** Where the forward scan over the next links ends: the start of the last linked record, or, with one
      record or none, the place that `prevRecord` claims to be the end of the header. */
  function LastLinked(root: Text, files: seq<seq<Byte>>): nat
    requires files != []
  {
    if |files| == 1 then HeaderEnd(root) else Boundary(root, files, |files| - 2)
  }

  /** The position `gotoLastRecord` reports for a file whose last linked record starts at `last`. */
  function LastRecord(f: seq<Byte>, last: nat): int
    requires 8 <= last <= |f|
  {
    if TailWord(f) == 0 then 0
    else if EntryAt(f, Probe(f)) then TailWord(f)
    else if EntryAt(f, last) then last
    else WordAt(f, last - 8)
  }

  lemma PrefixWord(f: seq<Byte>, g: seq<Byte>, i: nat)
    requires g <= f && i + 4 <= |g|
    ensures WordAt(f, i) == WordAt(g, i)
  {
    assert f[i..i + 4] == g[i..i + 4];
  }

  /** The link word before the `k`-th boundary. */
  ghost predicate LinkOk(root: Text, f: seq<Byte>, files: seq<seq<Byte>>, k: nat) {
    && k < |files| && 16 <= Boundary(root, files, k) <= |f|
    && WordAt(f, Boundary(root, files, k) - 4) == if k + 1 == |files| then 0 else |files[k + 1]|
  }

  /** Bytes that follow the linked records do not change what the links say. */
  lemma TornLink(root: Text, files: seq<seq<Byte>>, bodies: seq<seq<Byte>>, f: seq<Byte>, k: nat)
    requires History(root, files, bodies) && files[|bodies|] <= f && k <= |bodies|
    ensures LinkOk(root, f, files, k)
  {
    NextLink(root, files, bodies, k, |bodies|);
    PrefixWord(f, files[|bodies|], Boundary(root, files, k) - 4);
  }

  lemma TornFront(root: Text, files: seq<seq<Byte>>, bodies: seq<seq<Byte>>, f: seq<Byte>)
    requires History(root, files, bodies) && files[|bodies|] <= f
    ensures 16 <= |f| && WordAt(f, 0) == HeaderEnd(root)
  {
    FirstWord(root, files, bodies, |bodies|);
    PrefixWord(f, files[|bodies|], 0);
  }

  /** The word 8 bytes before the place where the scan ends, with at most one record. */
  lemma LastLinkedWord(root: Text, files: seq<seq<Byte>>, bodies: seq<seq<Byte>>, f: seq<Byte>)
    requires History(root, files, bodies) && files[|bodies|] <= f
    ensures 16 <= LastLinked(root, files) <= |f|
    ensures |bodies| <= 1 ==> WordAt(f, LastLinked(root, files) - 8) == HeaderLink(root)
  {
    var n := |bodies|;
    var k := if n == 0 then 0 else n - 1;
    LaterIsLonger(root, files, bodies, k, n);
    if n <= 1 {
      var at := HeaderEnd(root) - 8;
      EarlierBytesKept(root, files, bodies, 0, n);
      SameWord(files[n], files[0], HeaderEnd(root) - 4, at);
      PrefixWord(f, files[n], at);
    }
  }

  /** Every body opens with the entry byte. */
  ghost predicate Entries(bodies: seq<seq<Byte>>) {
    forall i :: 0 <= i < |bodies| ==> bodies[i] != [] && bodies[i][0] == ENTRY_TAG
  }

  /** Every record opens with its entry byte. */
  lemma RecordEntry(root: Text, files: seq<seq<Byte>>, bodies: seq<seq<Byte>>, f: seq<Byte>, k: nat)
    requires History(root, files, bodies) && files[|bodies|] <= f && Entries(bodies) && k < |bodies|
    ensures EntryAt(f, |files[k]|)
  {
    RecordAt(root, files, bodies, k, |bodies|);
    var log, i := files[|bodies|], |files[k]|;
    assert f[i] == log[i] == log[i..][0];
  }

  /** On a log without torn bytes both ways to the last record agree. */
  lemma TailWordIsLastLinked(root: Text, files: seq<seq<Byte>>, bodies: seq<seq<Byte>>)
    requires History(root, files, bodies)
    ensures 16 <= |files[|bodies|]|
    ensures TailWord(files[|bodies|])
            == if bodies == [] then 0 else LastLinked(root, files)
  {
    BackLink(root, files, bodies, |bodies|, |bodies|);
  }

  lemma HistoryExtend(root: Text, files: seq<seq<Byte>>, bodies: seq<seq<Byte>>, body: seq<Byte>, next: seq<Byte>)
    requires History(root, files, bodies)
    requires Extended(files[|bodies|], Boundary(root, files, |bodies|), body, next)
    ensures History(root, files + [next], bodies + [body])
  {
    var fs, bs := files + [next], bodies + [body];
    forall i | 0 <= i < |bs| ensures StepOk(root, fs, bs, i) {
      if i < |bodies| {
        assert StepOk(root, files, bodies, i);
      }
    }
  }

  class Log {
    const rootPath: Text
    var file: seq<Byte>
    var position: nat
    /** `prevRecord`: where the last completed record ends. */
    var prevRecord: int
    ghost var records: seq<Record>
    /** The file's contents after the header and after each record. */
    ghost var files: seq<seq<Byte>>

    /** The file starts with a linked list of records with these bodies; torn bytes may follow. */
    ghost predicate Linked(bodies: seq<seq<Byte>>)
      reads this`file, this`files, this`prevRecord
    {
      && History(rootPath, files, bodies) && Entries(bodies)
      && files[|bodies|] <= file && prevRecord == |file|
    }

    /** After the header and after every completed command: the file is the linked list of the records. */
    ghost predicate Valid()
      reads this`file, this`records, this`files, this`prevRecord
    {
      && Loggable(rootPath, records)
      && FileOf(rootPath, records, files)
      && file == files[|records|] && prevRecord == Boundary(rootPath, files, |records|)
    }

    /** `InitLog` on a new file. For root paths of 128 characters and more, `prevRecord` is not the end of
        the file. */
    constructor (rootPath: Text)
      ensures this.rootPath == rootPath && file == Header(rootPath) && prevRecord == HeaderEnd(rootPath)
      ensures records == [] && files == [file]
      ensures |rootPath| < 0x10000 ==> Valid()
    {
      hide Header, FreshLog, Encode;
      this.rootPath := rootPath;
      file, position := [], 0;
      prevRecord := 0;
      records := [];
      files := [Header(rootPath)];
      new;
      WriteLogHeader();
      if |rootPath| < 0x10000 {
        HeaderIsFreshLog(rootPath);
        HeaderParts(rootPath);
      }
    }

    method SeekEnd()
      modifies this`position
      ensures position == |file|
    {
      position := |file|;
    }

    /** A negative position is refused and leaves the file where it was. */
    method SeekSet(to: int) returns (ok: bool)
      modifies this`position
      ensures ok == (to >= 0) && position == if to >= 0 then to else old(position)
    {
      ok := to >= 0;
      if ok {
        position := to;
      }
    }

    method WriteData(data: seq<Byte>)
      requires position <= |file|
      modifies this`position, this`file
      ensures file == Overwrite(old(file), old(position), data) && position == old(position) + |data|
      ensures old(position == |file|) ==> file == old(file) + data
    {
      file := Overwrite(file, position, data);
      position := position + |data|;
    }

    method ReadWord() returns (word: int)
      requires position + 4 <= |file|
      modifies this`position
      ensures word == WordAt(file, old(position)) && position == old(position) + 4
    {
      word := WordAt(file, position);
      position := position + 4;
    }

    method ReadByte() returns (ok: bool, byte: Byte)
      modifies this`position
      ensures ok == (old(position) < |file|)
      ensures ok ==> byte == file[old(position)] && position == old(position) + 1
    {
      ok, byte := position < |file|, 0;
      if ok {
        byte := file[position];
        position := position + 1;
      }
    }

    /** Root path, links of an empty list, and `prevRecord` computed from the length of the path. */
    method WriteLogHeader()
      requires file == [] && position == 0
      modifies this`position, this`file, this`prevRecord
      ensures file == Header(rootPath) && position == |file| && prevRecord == HeaderEnd(rootPath)
    {
      hide Overwrite, Word, Opaque;
      prevRecord := 3 * 4 + |rootPath| + 4;
      WriteData(Word(|rootPath| + 16));
      WriteData([URI_TAG]);
      WriteData(Opaque(Bytes(rootPath)));
      SeekEnd();
      WriteData([END_TAG]);
      WriteData(Word(0));
      WriteData(Word(0));
    }

    /** Appends the back link and a placeholder, and patches the previous placeholder. */
    method UpdatePosition()
      requires position == |file| && 12 <= prevRecord <= |file|
      modifies this`position, this`file, this`prevRecord
      ensures file == Overwrite(old(file) + Word(old(prevRecord)) + Word(0), old(prevRecord) - 4, Word(|old(file)| + 8))
      ensures prevRecord == |file| == |old(file)| + 8 && position == |file|
    {
      WriteData(Word(prevRecord));
      WriteData(Word(0));
      SeekEnd();
      var currentPos := position;
      var sought := SeekSet(prevRecord - 4);
      WriteData(Word(currentPos));
      SeekEnd();
      prevRecord := currentPos;
    }

    /** `writeURIInfo`, what the command adds, then the links. */
    method AppendEntry(head: seq<Byte>, body: seq<Byte>)
      requires 12 <= prevRecord <= |file|
      modifies this`position, this`file, this`prevRecord
      ensures file == Appended(old(file), old(prevRecord), head + body) && prevRecord == |file|
    {
      hide Overwrite, Word;
      SeekEnd();
      WriteData(head);
      WriteData(body);
      assert file == old(file) + (head + body);
      UpdatePosition();
    }

    /** `logCommand` for one record: its body goes to the end of the file, then the links. The file stays
        a consistent doubly linked list. */
    method LogRecord(r: Record)
      requires Valid() && Loggable(rootPath, records + [r])
      modifies this
      ensures Valid() && records == old(records) + [r]
      ensures 12 <= old(prevRecord) <= |old(file)| && file == Appended(old(file), old(prevRecord), Encode(r))
    {
      RecordFits(rootPath, records, r, files);
      AppendEntry(HeadBytes(CommandOf(r), r.path), BodyBytes(r));
      records := records + [r];
      files := files + [file];
    }

    /** The fallback of `gotoLastRecord`: follow the next links from the header. It ends, and whatever
        bytes follow the linked records, it stops at the start of the last of them. */
    method ScanForward(ghost bodies: seq<seq<Byte>>) returns (last: int)
      requires History(rootPath, files, bodies) && files[|bodies|] <= file
      modifies this`position
      ensures last == LastLinked(rootPath, files)
    {
      TornFront(rootPath, files, bodies, file);
      var sought := SeekSet(0);
      var current := ReadWord();
      last := current;
      ghost var k := 0;
      while true
        invariant 0 <= k <= |bodies| && current == Boundary(rootPath, files, k)
        invariant last == if k == 0 then HeaderEnd(rootPath) else Boundary(rootPath, files, k - 1)
        decreases |bodies| - k
      {
        TornLink(rootPath, files, bodies, file, k);
        if k < |bodies| {
          TornLink(rootPath, files, bodies, file, k + 1);
        }
        var at := current;
        sought := SeekSet(at - 4);
        current := ReadWord();
        if current == 0 {
          break;
        }
        last := at;
        k := k + 1;
      }
    }

    /** Finds the last record of a file that may end in torn bytes. Unless it reports 0, the byte handed to
        the replay is an entry byte, or for a long root path whatever the position found holds. */
    method GotoLastRecord(ghost bodies: seq<seq<Byte>>) returns (currentPos: int, lastByte: Byte)
      requires Linked(bodies)
      modifies this`position
      ensures 8 <= LastLinked(rootPath, files) <= |file|
      ensures currentPos == LastRecord(file, LastLinked(rootPath, files))
      ensures currentPos > 0 ==> position == currentPos + 1
      ensures currentPos != 0 && |rootPath| < LONG_ROOT ==> lastByte == ENTRY_TAG
      ensures currentPos != 0 && lastByte != ENTRY_TAG ==> 0 < currentPos < |file| && lastByte == file[currentPos]
    {
      hide FreshLog, StepOk;
      TornFront(rootPath, files, bodies, file);
      LastLinkedWord(rootPath, files, bodies, file);
      lastByte := 0;
      var sought := SeekSet(prevRecord - 8);
      currentPos := ReadWord();
      if currentPos == 0 {
        return;
      }
      sought := SeekSet(currentPos);
      var ok;
      ok, lastByte := ReadByte();
      if !ok || lastByte != ENTRY_TAG {
        currentPos, lastByte := GotoLastLinked(bodies);
      }
    }

    /** The second half of `gotoLastRecord`, when no entry byte is where the tail points. */
    method GotoLastLinked(ghost bodies: seq<seq<Byte>>) returns (currentPos: int, lastByte: Byte)
      requires Linked(bodies)
      modifies this`position
      ensures 8 <= LastLinked(rootPath, files) <= |file|
      ensures var last := LastLinked(rootPath, files);
              currentPos == if EntryAt(file, last) then last else WordAt(file, last - 8)
      ensures currentPos > 0 ==> position == currentPos + 1
      ensures currentPos != 0 && |rootPath| < LONG_ROOT ==> lastByte == ENTRY_TAG
      ensures currentPos != 0 ==> 0 < currentPos < |file| && lastByte == file[currentPos]
    {
      hide FreshLog, StepOk, WordAt;
      LastLinkedWord(rootPath, files, bodies, file);
      if |bodies| >= 2 {
        RecordEntry(rootPath, files, bodies, file, |bodies| - 1);
      }
      var last := ScanForward(bodies);
      currentPos := last;
      var sought := SeekSet(currentPos);
      var ok;
      ok, lastByte := ReadByte();
      if !ok || lastByte != ENTRY_TAG {
        sought := SeekSet(last - 8);
        currentPos := ReadWord();
        if currentPos == 0 {
          return;
        }
        HeaderRoom(rootPath, files, bodies, file);
        sought := SeekSet(currentPos);
        ok, lastByte := ReadByte();
      }
    }

    /** The file is positioned behind the entry byte of the `k`-th record. */
    ghost predicate At(k: nat, current: int)
      reads this`position, this`records, this`files
    {
      0 < k <= |records| && k < |files| && current == |files[k - 1]| && position == current + 1
    }

    /** The front of `playLog`: the last record of a log in order. */
    method StartReplay() returns (current: int, lastByte: Byte)
      requires Valid() && (|rootPath| < LONG_ROOT || |records| >= 2)
      modifies this`position, this`prevRecord
      ensures Valid()
      ensures records == [] ==> current == 0
      ensures records != [] ==> current > 0 && lastByte == ENTRY_TAG && At(|records|, current)
    {
      hide FreshLog, Loggable;
      LaterIsLonger(rootPath, files, Bodies(records), 0, 0);
      SeekEnd();
      prevRecord := position;
      ValidIsLinked(rootPath, records, files);
      current, lastByte := GotoLastRecord(Bodies(records));
    }

    /** `readOneLogRecord`: it gives the record back, and fails for a value record without data. */
    method ReadOneLogRecord(ghost k: nat, ghost current: int) returns (r: Read<Record>)
      requires Valid() && At(k, current)
      ensures Unreadable(records[k - 1]) ==> r == Failed
      ensures !Unreadable(records[k - 1]) ==> r.Got? && r.value == records[k - 1]
    {
      ReadAt(rootPath, files, records, k - 1, file);
      r := ReadRecord(file[position - 1..]);
    }

    /** The end of the loop of `playLog`: back over the link before the record. Positions fall. */
    method GotoPreviousRecord(current: int, ghost k: nat) returns (previous: int, byte: Byte)
      requires Valid() && At(k, current) && (|rootPath| < LONG_ROOT || k >= 3)
      modifies this`position
      ensures 0 <= previous < current
      ensures k == 1 ==> previous == 0
      ensures k > 1 ==> previous > 0 && byte == ENTRY_TAG && At(k - 1, previous)
    {
      hide Loggable, FileOf, WordAt;
      LinkBack(rootPath, records, files, k);
      byte := 0;
      var sought := SeekSet(current - 8);
      previous := ReadWord();
      if previous == 0 {
        return;
      }
      sought := SeekSet(previous);
      var ok;
      ok, byte := ReadByte();
    }
  }

  /** The file is longer than the position a long header's misplaced link word gives. */
  lemma HeaderRoom(root: Text, files: seq<seq<Byte>>, bodies: seq<seq<Byte>>, f: seq<Byte>)
    requires History(root, files, bodies) && files[|bodies|] <= f
    ensures |root| >= LONG_ROOT ==> |f| >= 144
    ensures |root| >= 0x4000 ==> |f| >= 0x4000
  {
    LaterIsLonger(root, files, bodies, 0, |bodies|);
  }

  lemma EncodedEntries(records: seq<Record>)
    ensures Entries(Bodies(records))
  {
  }

  /** Logging one more record extends the linked list. */
  lemma RecordFits(root: Text, records: seq<Record>, r: Record, files: seq<seq<Byte>>)
    requires Loggable(root, records + [r]) && FileOf(root, records, files)
    ensures var f, prev := files[|records|], Boundary(root, files, |records|);
            12 <= prev <= |f| && FileOf(root, records + [r], files + [Appended(f, prev, Encode(r))])
  {
    hide Appended, FreshLog, Extended;
    var f, prev := files[|records|], Boundary(root, files, |records|);
    LaterIsLonger(root, files, Bodies(records), |records|, |records|);
    BodiesConcat(records, [r]);
    assert Bodies([r]) == [Encode(r)];
    FileSizes(root, files, Bodies(records), |records|);
    StartAppend(root, Bodies(records), Bodies([r]), |records|);
    AppendedIsExtended(f, prev, Encode(r));
    HistoryExtend(root, files, Bodies(records), Encode(r), Appended(f, prev, Encode(r)));
  }

  /** A log in order with a short root path, or with two records: the replay starts at its last record. */
  lemma ValidIsLinked(root: Text, records: seq<Record>, files: seq<seq<Byte>>)
    requires Loggable(root, records) && FileOf(root, records, files)
    requires |records| != 1 || |root| < LONG_ROOT
    ensures var f := files[|records|];
            && 8 <= LastLinked(root, files) <= |f| && Entries(Bodies(records))
            && LastRecord(f, LastLinked(root, files)) == (if records == [] then 0 else |files[|records| - 1]|)
            && (records != [] ==> |files[|records| - 1]| > 0 && EntryAt(f, |files[|records| - 1]|))
  {
    hide Loggable, StepOk;
    var f, n := files[|records|], |records|;
    EncodedEntries(records);
    TailWordIsLastLinked(root, files, Bodies(records));
    LastLinkedWord(root, files, Bodies(records), f);
    if n > 0 {
      LaterIsLonger(root, files, Bodies(records), n - 1, n);
      RecordEntry(root, files, Bodies(records), f, n - 1);
    }
  }

  /** The link before the `k`-th record leads to the one before it, with a long root path from the third
      record on. */
  lemma LinkBack(root: Text, records: seq<Record>, files: seq<seq<Byte>>, k: nat)
    requires Loggable(root, records) && FileOf(root, records, files) && 0 < k <= |records|
    requires |root| < LONG_ROOT || k >= 3
    ensures var f := files[|records|];
            && 12 <= |files[k - 1]| <= |f|
            && WordAt(f, |files[k - 1]| - 8) == (if k == 1 then 0 else |files[k - 2]|)
            && (k > 1 ==> 0 < |files[k - 2]| < |files[k - 1]| && EntryAt(f, |files[k - 2]|))
  {
    hide Loggable, WordAt, EntryAt;
    BackLink(root, files, Bodies(records), k - 1, |records|);
    if k > 1 {
      LaterIsLonger(root, files, Bodies(records), k - 2, k - 1);
      EncodedEntries(records);
      RecordEntry(root, files, Bodies(records), files[|records|], k - 2);
    }
  }
}
