/** How far `playLog` gets on the bytes of a log file. Its loop has no branch for a byte that is neither tag,
    so whether it ends depends on where the back links lead; this module says exactly when it does. */
module LogReplay {
  import opened DmText
  import opened Uri
  import opened UndoLog
  import opened Wbxml
  import opened LogLayout
  import opened PluginLog

  /** Still in the loop; left it at the 0 link or an END byte; or left it on a failed read. */
  datatype Progress = Turning | Done | Broken

  /** What one turn of the loop does: leave it, or go on with the byte at another position. */
  datatype Turn = Leave(how: Progress) | GoTo(next: nat)

  /** The turn after the byte at `at` has been read. */
  function TurnAt(f: seq<Byte>, at: nat): (turn: Turn)
    requires at < |f|
    ensures turn.GoTo? ==> turn.next < |f|
    ensures turn.Leave? ==> !turn.how.Turning?
  {
    if f[at] == END_TAG then Leave(Done)
    else if f[at] != ENTRY_TAG then GoTo(at)
    else if ReadRecord(f[at..]).Failed? || at < 8 then Leave(Broken)
    else
      var next := WordAt(f, at - 8);
      if next == 0 then Leave(Done)
      else if next < 0 || next >= |f| then Leave(Broken)
      else GoTo(next)
  }

  /** The loop of `playLog` after `turns` turns. */
  function Loop(f: seq<Byte>, at: nat, turns: nat): Progress
    requires at < |f|
    decreases turns
  {
    if turns == 0 then Turning
    else
      match TurnAt(f, at)
      case Leave(how) => how
      case GoTo(next) => Loop(f, next, turns - 1)
  }

  /** The record a turn plays back, if it reads one. */
  function PlayedAt(f: seq<Byte>, at: nat): seq<Record>
    requires at < |f|
  {
    if f[at] == ENTRY_TAG && ReadRecord(f[at..]).Got? then [ReadRecord(f[at..]).value] else []
  }

  /** The records played back in `turns` turns. */
  function Played(f: seq<Byte>, at: nat, turns: nat): seq<Record>
    requires at < |f|
    decreases turns
  {
    if turns == 0 then []
    else
      match TurnAt(f, at)
      case Leave(_) => PlayedAt(f, at)
      case GoTo(next) => PlayedAt(f, at) + Played(f, next, turns - 1)
  }

  ghost predicate Ends(f: seq<Byte>, at: nat)
    requires at < |f|
  {
    exists turns: nat :: !Loop(f, at, turns).Turning?
  }

  /** On a byte that is neither tag the loop makes no progress. */
  lemma {:induction false} Spins(f: seq<Byte>, at: nat, turns: nat)
    requires at < |f| && f[at] != END_TAG && f[at] != ENTRY_TAG
    ensures Loop(f, at, turns) == Turning && Played(f, at, turns) == []
    decreases turns
  {
    if turns > 0 {
      Spins(f, at, turns - 1);
    }
  }

  /** The first record that the back links reach: with a long root path the second one links to the place
      where `prevRecord` claimed the header to end, not to the first. */
  function FirstReached(root: Text): nat {
    if |root| < LONG_ROOT then 0 else 1
  }

  predicate SomeUnreadable(records: seq<Record>, from: nat, to: nat)
    requires to <= |records|
  {
    exists i :: from <= i < to && Unreadable(records[i])
  }

  /** The turn at the start of the `k`-th record. */
  lemma RecordTurn(root: Text, files: seq<seq<Byte>>, records: seq<Record>, f: seq<Byte>, k: nat)
    requires Loggable(root, records) && FileOf(root, records, files) && files[|records|] <= f
    requires FirstReached(root) < k <= |records|
    ensures |files[k - 1]| < |f| && HeaderEnd(root) < |f|
    ensures TurnAt(f, |files[k - 1]|)
            == if Unreadable(records[k - 1]) then Leave(Broken)
               else if k == 1 then Leave(Done)
               else GoTo(Boundary(root, files, k - 2))
    ensures PlayedAt(f, |files[k - 1]|) == if Unreadable(records[k - 1]) then [] else [records[k - 1]]
  {
    hide Loggable, FreshLog, StepOk, ReadRecord, WordAt, Encode, Header;
    var n, at := |records|, |files[k - 1]|;
    ReadAt(root, files, records, k - 1, f);
    BackLink(root, files, Bodies(records), k - 1, n);
    PrefixWord(f, files[n], at - 8);
    LaterIsLonger(root, files, Bodies(records), 0, k - 1);
    if k >= 2 {
      LaterIsLonger(root, files, Bodies(records), k - 2, k - 1);
    }
  }

  lemma OneMore(records: seq<Record>, from: nat, k: nat)
    requires from < k <= |records|
    ensures SomeUnreadable(records, from, k) <==> Unreadable(records[k - 1]) || SomeUnreadable(records, from, k - 1)
  {
  }

  lemma NoneThere(records: seq<Record>, from: nat)
    requires from <= |records|
    ensures !SomeUnreadable(records, from, from)
  {
  }

  /** Apart from the claimed end of a header that is too long, all places are inside the file. */
  lemma PlacesInside(root: Text, files: seq<seq<Byte>>, records: seq<Record>, k: nat)
    requires FileOf(root, records, files) && k < |records|
    ensures Boundary(root, files, k) <= |files[k]| < |files[|records|]|
    ensures k >= 1 || |root| < LONG_ROOT ==> Boundary(root, files, k) == |files[k]|
  {
    hide StepOk, WordAt, Encode, Header;
    LaterIsLonger(root, files, Bodies(records), k, |records|);
  }

  /** The records before the `k`-th, newest first, down to `from` or to one that cannot be read. */
  function NewestFirst(records: seq<Record>, from: nat, k: nat): seq<Record>
    requires k <= |records|
  {
    if k <= from || Unreadable(records[k - 1]) then []
    else [records[k - 1]] + NewestFirst(records, from, k - 1)
  }

  lemma RecordThenLoop(root: Text, files: seq<seq<Byte>>, records: seq<Record>, f: seq<Byte>, k: nat, turns: nat)
    requires Loggable(root, records) && FileOf(root, records, files) && files[|records|] <= f
    requires FirstReached(root) < k <= |records| && turns > 0
    ensures |files[k - 1]| < |f| && HeaderEnd(root) < |f|
    ensures k >= 2 ==> Boundary(root, files, k - 2) < |f|
    ensures k >= 3 || (k == 2 && |root| < LONG_ROOT) ==> Boundary(root, files, k - 2) == |files[k - 2]|
    ensures Loop(f, |files[k - 1]|, turns)
            == if Unreadable(records[k - 1]) then Broken
               else if k == 1 then Done
               else Loop(f, Boundary(root, files, k - 2), turns - 1)
    ensures Played(f, |files[k - 1]|, turns)
            == if Unreadable(records[k - 1]) then []
               else if k == 1 then [records[k - 1]]
               else [records[k - 1]] + Played(f, Boundary(root, files, k - 2), turns - 1)
  {
    hide Loggable, History, TurnAt, PlayedAt, Unreadable, Boundary, Encode, Header;
    RecordTurn(root, files, records, f, k);
    if k >= 2 {
      PlacesInside(root, files, records, k - 2);
    }
  }

  /** From the start of the `k`-th record, whatever follows the log in the file: the loop breaks at an
      unreadable record if there is one on its way. Otherwise it ends at the 0 link with a short root path,
      and with a long one it never ends. Meanwhile it has played back the records on its way, newest first. */
  lemma {:induction false} ReplayFrom(root: Text, files: seq<seq<Byte>>, records: seq<Record>, f: seq<Byte>,
                                      k: nat, turns: nat)
    requires Loggable(root, records) && FileOf(root, records, files) && files[|records|] <= f
    requires FirstReached(root) < k <= |records| && k <= turns
    ensures |files[k - 1]| < |f|
    ensures Loop(f, |files[k - 1]|, turns)
            == if SomeUnreadable(records, FirstReached(root), k) then Broken
               else if |root| < LONG_ROOT then Done
               else Turning
    ensures Played(f, |files[k - 1]|, turns) == NewestFirst(records, FirstReached(root), k)
    decreases k
  {
    hide Loggable, FileOf, Unreadable, SomeUnreadable, Loop, Played, Encode, Header;
    RecordThenLoop(root, files, records, f, k, turns);
    OneMore(records, FirstReached(root), k);
    NoneThere(records, FirstReached(root));
    if k == 2 && |root| >= LONG_ROOT {
      GapSpins(root, files, records, f, turns - 1);
    } else if k >= 2 {
      ReplayFrom(root, files, records, f, k - 1, turns - 1);
    }
  }

  lemma GapSpins(root: Text, files: seq<seq<Byte>>, records: seq<Record>, f: seq<Byte>, turns: nat)
    requires FileOf(root, records, files) && files[|records|] <= f && |root| >= LONG_ROOT
    ensures HeaderEnd(root) < |f|
    ensures Loop(f, HeaderEnd(root), turns) == Turning && Played(f, HeaderEnd(root), turns) == []
  {
    hide FreshLog, StepOk, Loop, Played, Encode, Header;
    GapByte(root, files, Bodies(records), |records|);
    Spins(f, HeaderEnd(root), turns);
  }

  /** The start of a replay of an untorn log with two or more records is its last record. */
  lemma ReplayStart(root: Text, files: seq<seq<Byte>>, records: seq<Record>)
    requires Loggable(root, records) && FileOf(root, records, files) && |records| >= 2
    ensures var f, last := files[|records|], LastLinked(root, files);
            && 8 <= last < |f| && last == |files[|records| - 1]| && LastRecord(f, last) == last
  {
    hide Loggable, StepOk, FreshLog, Encode, Header;
    var n := |records|;
    EncodedEntries(records);
    TailWordIsLastLinked(root, files, Bodies(records));
    LaterIsLonger(root, files, Bodies(records), n - 1, n);
    RecordEntry(root, files, Bodies(records), files[n], n - 1);
  }

  /** With two or more records, a replay ends exactly if the root path is shorter than 128 characters, or an
      unreadable record other than the first stops it. It ends at the 0 link, with every record replayed,
      exactly if the root path is shorter than 128 characters and every record can be read. */
  lemma ReplayEndsIff(root: Text, files: seq<seq<Byte>>, records: seq<Record>)
    requires Loggable(root, records) && FileOf(root, records, files) && |records| >= 2
    ensures var f, last := files[|records|], LastLinked(root, files);
            && 8 <= last < |f| && LastRecord(f, last) == last
            && (Ends(f, last) <==> |root| < LONG_ROOT || SomeUnreadable(records, 1, |records|))
            && (Loop(f, last, |records|) == Done <==> |root| < LONG_ROOT && !SomeUnreadable(records, 0, |records|))
  {
    hide Loggable, StepOk, FreshLog, Loop, Encode, Header;
    var n, f, last := |records|, files[|records|], LastLinked(root, files);
    ReplayStart(root, files, records);
    ReplayFrom(root, files, records, f, n, n);
    if |root| >= LONG_ROOT && !SomeUnreadable(records, 1, n) {
      forall turns: nat ensures Loop(f, last, turns) == Turning {
        if !Loop(f, last, turns).Turning? {
          MoreTurns(f, last, turns, turns + n);
          ReplayFrom(root, files, records, f, n, turns + n);
        }
      }
    }
  }

  /** A loop that has ended stays ended. */
  lemma {:induction false} MoreTurns(f: seq<Byte>, at: nat, few: nat, many: nat)
    requires at < |f| && few <= many && !Loop(f, at, few).Turning?
    ensures Loop(f, at, many) == Loop(f, at, few)
    decreases few
  {
    hide TurnAt, Encode, Header;
    if TurnAt(f, at).GoTo? {
      MoreTurns(f, TurnAt(f, at).next, few - 1, many - 1);
    }
  }

  // ---------- the tree a replay leaves ----------

  function PlayAll(s: Player, played: seq<Record>): Player
    decreases |played|
  {
    if played == [] then s else PlayAll(PlayOne(s, played[0]), played[1..])
  }

  lemma UnreadableAborts(s: Player, r: Record)
    requires !s.aborted
    ensures PlayOne(s, r).aborted <==> Unreadable(r)
    ensures Unreadable(r) ==> PlayOne(s, r).tree == s.tree
  {
  }

  /** Playing back the records on the way is the replay of that part of the log. */
  lemma {:induction false} PlayedIsReplay(s: Player, records: seq<Record>, from: nat, k: nat)
    requires !s.aborted && from <= k <= |records|
    ensures PlayAll(s, NewestFirst(records, from, k)).tree == Replay(s, records[from..k]).tree
    ensures Replay(s, records[from..k]).aborted <==> SomeUnreadable(records, from, k)
    decreases k
  {
    hide PlayOne, Encode;
    if k > from {
      UnreadableAborts(s, records[k - 1]);
      var part, r := records[from..k], records[k - 1];
      assert part[|part| - 1] == r && part[..|part| - 1] == records[from..k - 1];
      if Unreadable(r) {
        AbortedStays(PlayOne(s, r), records[from..k - 1]);
      } else {
        PlayedIsReplay(PlayOne(s, r), records, from, k - 1);
        var played := NewestFirst(records, from, k);
        assert played[0] == r && played[1..] == NewestFirst(records, from, k - 1);
      }
    }
  }

  /** With two or more records, what is played back is the replay of all records, or with a long root path of
      all but the first. When the loop ends there, at an unreadable record, the first one makes no
      difference. */
  lemma ReplayLeaves(root: Text, files: seq<seq<Byte>>, records: seq<Record>, s: Player, turns: nat)
    requires Loggable(root, records) && FileOf(root, records, files) && 2 <= |records| <= turns && !s.aborted
    ensures var f, last := files[|records|], LastLinked(root, files);
            && 8 <= last < |f|
            && PlayAll(s, Played(f, last, turns)).tree == Replay(s, records[FirstReached(root)..]).tree
            && (Ends(f, last) ==> PlayAll(s, Played(f, last, turns)).tree == Replay(s, records).tree)
  {
    hide Loggable, StepOk, FreshLog, Loop, Played, Ends, PlayAll, NewestFirst, Encode, Header;
    var n, from := |records|, FirstReached(root);
    ReplayStart(root, files, records);
    ReplayEndsIff(root, files, records);
    ReplayFrom(root, files, records, files[n], n, turns);
    PlayedIsReplay(s, records, from, n);
    assert records[from..n] == records[from..];
    assert records == records[..from] + records[from..];
    ReplayConcat(s, records[..from], records[from..]);
    if SomeUnreadable(records, from, n) {
      AbortedStays(Replay(s, records[from..]), records[..from]);
    } else {
      assert |root| < LONG_ROOT ==> records[from..] == records;
    }
  }

  // ---------- torn files ----------

  /** A file that ends in torn bytes is replayed from its last linked record exactly if the tail word is not
      0 and, should it point at an entry byte, points at that record. The replay then is that of the log
      without the torn bytes. */
  lemma TornReplay(root: Text, files: seq<seq<Byte>>, records: seq<Record>, f: seq<Byte>, turns: nat)
    requires Loggable(root, records) && FileOf(root, records, files) && |root| < LONG_ROOT
    requires files[|records|] <= f && 0 < |records| <= turns
    ensures var last := LastLinked(root, files);
            && 8 <= last < |f|
            && (LastRecord(f, last) == last <==> TailWord(f) != 0 && (EntryAt(f, Probe(f)) ==> TailWord(f) == last))
            && Loop(f, last, turns) == (if SomeUnreadable(records, 0, |records|) then Broken else Done)
            && Played(f, last, turns) == NewestFirst(records, 0, |records|)
  {
    hide Loggable, StepOk, FreshLog, Loop, Played, ReadRecord, WordAt, Encode, Header;
    var n := |records|;
    PlacesInside(root, files, records, n - 1);
    EncodedEntries(records);
    LaterIsLonger(root, files, Bodies(records), n - 1, n);
    RecordEntry(root, files, Bodies(records), f, n - 1);
    ReplayFrom(root, files, records, f, n, turns);
  }

  // ---------- long root paths: the remaining case and an input ----------

  /** With one record and a root path of 128 to 16383 characters, the replay starts at position 1, on the
      second byte of the first word. It ends there, without having replayed the record, exactly if that
      byte happens to be the END byte. */
  lemma OneRecordLongRoot(root: Text, r: Record, files: seq<seq<Byte>>, turns: nat)
    requires LONG_ROOT <= |root| < 0x4000 && turns > 0
    requires Loggable(root, [r]) && FileOf(root, [r], files)
    ensures var f, last := files[1], LastLinked(root, files);
            && 8 <= last <= |f| && LastRecord(f, last) == 1
            && Loop(f, 1, turns) == (if 240 <= |root| <= 495 then Done else Turning)
            && Played(f, 1, turns) == []
  {
    hide Loggable, StepOk, Loop, Played, WordAt, Encode, Header;
    var f, bodies := files[1], Bodies([r]);
    LaterIsLonger(root, files, bodies, 0, 1);
    TailWordIsLastLinked(root, files, bodies);
    LastLinkedWord(root, files, bodies, f);
    GapByte(root, files, bodies, 1);
    SecondByte(root, files, bodies);
    if f[1] == END_TAG {
      LoopTurn(f, 1, turns);
    } else {
      Spins(f, 1, turns);
    }
  }

  lemma LoopTurn(f: seq<Byte>, at: nat, turns: nat)
    requires at < |f| && turns > 0 && TurnAt(f, at).Leave?
    ensures Loop(f, at, turns) == TurnAt(f, at).how && Played(f, at, turns) == PlayedAt(f, at)
  {
  }

  lemma SecondByte(root: Text, files: seq<seq<Byte>>, bodies: seq<seq<Byte>>)
    requires LONG_ROOT <= |root| < 0x4000 && |files| == 2 && files[0] == Header(root) && History(root, files, bodies)
    ensures |files[1]| > 1 && files[1][1] == (|root| + 16) / 256
    ensures files[1][1] == END_TAG <==> 240 <= |root| <= 495
    ensures files[1][1] != ENTRY_TAG
  {
    hide FreshLog, StepOk, Word, Opaque, Header, Encode;
    var f, n := files[1], HeaderEnd(root) - 4;
    EarlierBytesKept(root, files, bodies, 0, 1);
    assert f[1] == f[..n][1] == files[0][..n][1];
    WordBytes(|root| + 16);
    HeaderParts(root);
    assert files[0][1] == Word(|root| + 16)[1];
  }

  /** The contents of a log file while the records are logged. */
  function FilesOf(root: Text, records: seq<Record>): (files: seq<seq<Byte>>)
    requires |root| < 0x10000
    ensures |files| == |records| + 1 && files[0] == Header(root)
    ensures Boundary(root, files, |records|) >= 4
    decreases |records|
  {
    var n := |records|;
    if n == 0 then [Header(root)]
    else
      var before := FilesOf(root, records[..n - 1]);
      HeaderParts(root);
      before + [Appended(before[n - 1], Boundary(root, before, n - 1), Encode(records[n - 1]))]
  }

  /** They are the contents that the log class records. */
  lemma {:induction false} FilesAreLog(root: Text, records: seq<Record>)
    requires Loggable(root, records)
    ensures FileOf(root, records, FilesOf(root, records))
    decreases |records|
  {
    hide Loggable, Header, FreshLog, StepOk, Encode, Appended;
    var n := |records|;
    if n == 0 {
      HeaderIsFreshLog(root);
    } else {
      assert records == records[..n - 1] + [records[n - 1]];
      LoggablePrefix(root, records[..n - 1], [records[n - 1]]);
      FilesAreLog(root, records[..n - 1]);
      RecordFits(root, records[..n - 1], records[n - 1], FilesOf(root, records[..n - 1]));
    }
  }

  lemma DeleteRecordSize(p: Path)
    requires |Join(p)| < MAX_FIELD
    ensures |Encode(DeleteRec(p))| < 0x10000 + 16
  {
    LenBytesBelow(|Join(p)|);
  }

  /** The record of a create fits any log that has room for it. */
  lemma DeleteFits(root: Text, p: Path)
    requires |root| < 0x10000 && ValidPath(p) && |Join(p)| < MAX_FIELD
    ensures Loggable(root, [DeleteRec(p)]) && Loggable(root, [DeleteRec(p), DeleteRec(p)])
  {
    HeaderParts(root);
    DeleteRecordSize(p);
    var size := |Encode(DeleteRec(p))|;
    var one, two := Bodies([DeleteRec(p)]), Bodies([DeleteRec(p), DeleteRec(p)]);
    assert Start(root, one, 1) == |Header(root)| + size + 8;
    assert Start(root, two, 1) == |Header(root)| + size + 8;
    assert Start(root, two, 2) == |Header(root)| + size + 8 + size + 8;
  }

  lemma SecondLinksToGap(root: Text, files: seq<seq<Byte>>, records: seq<Record>)
    requires |root| == LONG_ROOT && |records| == 2 && FileOf(root, records, files)
    ensures |files[2]| > 144 && files[2][144] == 0
    ensures 8 <= |files[1]| <= |files[2]| && WordAt(files[2], |files[1]| - 8) == 144
  {
    hide StepOk, FreshLog, WordAt, Encode, Header;
    GapByte(root, files, Bodies(records), 2);
    BackLink(root, files, Bodies(records), 1, 2);
  }

  lemma SecondIsLast(root: Text, files: seq<seq<Byte>>)
    requires |files| == 3
    ensures LastLinked(root, files) == |files[1]|
  {
  }

  /** A root path of 128 characters and two creates: the last record links back to position 144, which holds
      a 0, and the replay never ends. */
  lemma LongRootSpins()
    ensures var root: Text := seq(LONG_ROOT, _ => 97);
            var records := [DeleteRec([[97]]), DeleteRec([[97]])];
            var files := FilesOf(root, records);
            var f, last := files[2], LastLinked(root, files);
            && FileOf(root, records, files) && |f| > 144 && f[144] == 0
            && 8 <= last < |f| && LastRecord(f, last) == last && WordAt(f, last - 8) == 144 && !Ends(f, last)
  {
    hide Loggable, FileOf, FilesOf, LastLinked, Ends, Encode, WordAt, LastRecord, Header;
    var root: Text := seq(LONG_ROOT, _ => 97);
    var p: Path := [[97]];
    var records := [DeleteRec(p), DeleteRec(p)];
    assert p[..0] == [] && Join(p) == [97];
    DeleteFits(root, p);
    FilesAreLog(root, records);
    var files := FilesOf(root, records);
    SecondLinksToGap(root, files, records);
    SecondIsLast(root, files);
    ReplayEndsIff(root, files, records);
  }
}
