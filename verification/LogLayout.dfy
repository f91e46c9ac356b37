/** The undo log file: a header and the records, joined into a doubly linked list by pairs of position
    words. The words before a boundary hold the start of the record that ends there and the next
    boundary. */
module LogLayout {
  import opened DmText
  import opened Uri
  import opened UndoLog
  import opened Wbxml

  const MAX_INT32 := 0x7FFF_FFFF

  /** The low `n` bytes of a number, low byte first. */
  function LittleEndian(v: nat, n: nat): (w: seq<Byte>)
    ensures |w| == n
    decreases n, v
  {
    if n == 0 then [] else [v % 256] + LittleEndian(v / 256, n - 1)
  }

  function Unsigned(s: seq<Byte>): nat {
    if s == [] then 0 else s[0] as nat + 256 * Unsigned(s[1..])
  }

  function Pow256(n: nat): nat {
    if n == 0 then 1 else 256 * Pow256(n - 1)
  }

  lemma {:induction false} UnsignedOfLittleEndian(v: nat, n: nat)
    requires v < Pow256(n)
    ensures Unsigned(LittleEndian(v, n)) == v
  {
    if n > 0 {
      UnsignedOfLittleEndian(v / 256, n - 1);
      assert LittleEndian(v, n)[1..] == LittleEndian(v / 256, n - 1);
    }
  }

  /** An `INT32` as it lies in memory. */
  function Word(v: nat): (w: seq<Byte>)
    ensures |w| == 4
  {
    LittleEndian(v, 4)
  }

  function Signed(u: nat): int {
    if u <= MAX_INT32 then u else u - 0x1_0000_0000
  }

  /** The `INT32` at a position of the file. */
  function WordAt(f: seq<Byte>, i: nat): int
    requires i + 4 <= |f|
  {
    Signed(Unsigned(f[i..i + 4]))
  }

  lemma WordRoundTrip(f: seq<Byte>, i: nat, v: nat)
    requires i + 4 <= |f| && v <= MAX_INT32
    requires f[i..i + 4] == Word(v)
    ensures WordAt(f, i) == v
  {
    assert Pow256(4) == 0x1_0000_0000;
    UnsignedOfLittleEndian(v, 4);
  }

  lemma WordBytes(v: nat)
    ensures Word(v)[0] == v % 256 && Word(v)[1] == v / 256 % 256
    ensures Word(v)[2] == v / 0x10000 % 256 && Word(v)[3] == v / 0x100_0000 % 256
  {
    assert LittleEndian(v, 4) == [v % 256] + LittleEndian(v / 256, 3);
    assert LittleEndian(v / 256, 3) == [v / 256 % 256] + LittleEndian(v / 256 / 256, 2);
    assert LittleEndian(v / 256 / 256, 2) == [v / 256 / 256 % 256] + LittleEndian(v / 256 / 256 / 256, 1);
    assert v / 256 / 256 == v / 0x10000 && v / 0x10000 / 256 == v / 0x100_0000;
  }

  /** Writing over a file at a position inside it or at its end. */
  function Overwrite(f: seq<Byte>, at: nat, data: seq<Byte>): seq<Byte>
    requires at <= |f|
  {
    f[..at] + data + (if at + |data| < |f| then f[at + |data|..] else [])
  }

  /** What `writeLogHeader` writes. */
  function Header(root: Text): seq<Byte> {
    Word(|root| + 16) + [URI_TAG] + Opaque(Bytes(root)) + [END_TAG] + Word(0) + Word(0)
  }

  /** The value `writeLogHeader` puts into `prevRecord` as the end of the header. */
  function HeaderEnd(root: Text): nat {
    |root| + 16
  }

  lemma LenBytesSize(n: nat)
    ensures |LenBytes(n)| == 1 <==> n < 128
    ensures |LenBytes(n)| >= 1
    ensures n < 0x1_0000_0000 ==> |LenBytes(n)| <= 5
  {
    LenHighSize(n / 128);
    LenHighBound(n / 128);
  }

  lemma LenHighSize(n: nat)
    ensures |LenHigh(n)| == 0 <==> n == 0
  {
  }

  lemma LenHighBound(n: nat)
    ensures n < 0x200_0000 ==> |LenHigh(n)| <= 4
  {
    if 0 < n < 0x200_0000 {
      assert n / 128 < 0x40000;
      assert n / 128 / 128 < 0x800;
      assert n / 128 / 128 / 128 < 0x10;
      assert n / 128 / 128 / 128 / 128 == 0;
      assert LenHigh(n / 128 / 128 / 128 / 128) == [];
      assert |LenHigh(n / 128 / 128 / 128)| <= 1;
      assert |LenHigh(n / 128 / 128)| <= 2;
      assert |LenHigh(n / 128)| <= 3;
    }
  }

  /** The header is as long as `prevRecord` claims exactly for root paths shorter than 128 characters:
      longer ones need more than one length byte. */
  lemma HeaderLengthIff(root: Text)
    requires |root| < 0x10000
    ensures |Header(root)| == HeaderEnd(root) <==> |root| < 128
  {
    LenBytesSize(|root|);
    assert |Bytes(root)[..Count16(|root|)]| == |root|;
  }

  /** Root paths of 128 characters and more: the header is longer than `prevRecord` says. */
  const LONG_ROOT := 128

  /** A file after one more record has been written at its end, with `prev` in `prevRecord`: the body, the
      word `prev`, a 0, and the word before `prev` patched to the new end. */
  function Appended(f: seq<Byte>, prev: nat, body: seq<Byte>): (r: seq<Byte>)
    requires 4 <= prev <= |f|
  {
    Overwrite(f + body + Word(prev) + Word(0), prev - 4, Word(|f| + |body| + 8))
  }

  /** `r` is `f` with one more record: the body, the word `prev` and a 0 follow, the word before `prev`
      holds the new end, and all other bytes of `f` are as they were. */
  ghost predicate Extended(f: seq<Byte>, prev: nat, body: seq<Byte>, r: seq<Byte>) {
    && 12 <= prev <= |f| && |r| == |f| + |body| + 8
    && SameUpTo(r, f, prev - 4)
    && WordAt(r, prev - 4) == |r|
    && r[prev..|f|] == f[prev..]
    && r[|f|..|r|] == body + r[|r| - 8..]
    && r[|r| - 8..|r| - 4] == Word(prev)
    && WordAt(r, |r| - 8) == prev
    && WordAt(r, |r| - 4) == 0
  }

  lemma AppendedIsExtended(f: seq<Byte>, prev: nat, body: seq<Byte>)
    requires 12 <= prev <= |f| && |f| + |body| + 8 <= MAX_INT32
    ensures Extended(f, prev, body, Appended(f, prev, body))
  {
    hide Appended, Word;
    var r := Appended(f, prev, body);
    var end := |f| + |body| + 8;
    AppendedParts(f, prev, body);
    Slices(f[..prev - 4], Word(end), f[prev..], body, Word(prev), Word(0));
    WordRoundTrip(r, prev - 4, end);
    WordRoundTrip(r, |r| - 8, prev);
    WordRoundTrip(r, |r| - 4, 0);
  }

  lemma AppendedParts(f: seq<Byte>, prev: nat, body: seq<Byte>)
    requires 12 <= prev <= |f|
    ensures Appended(f, prev, body)
            == f[..prev - 4] + Word(|f| + |body| + 8) + f[prev..] + body + Word(prev) + Word(0)
  {
    hide Word;
  }

  lemma Slices(front: seq<Byte>, a: seq<Byte>, mid: seq<Byte>, body: seq<Byte>, b: seq<Byte>, c: seq<Byte>)
    requires |a| == |b| == |c| == 4
    ensures var r := front + a + mid + body + b + c;
            var i, j, k := |front|, |front| + 4 + |mid|, |front| + 4 + |mid| + |body|;
            && r[..i] == front && r[i..i + 4] == a && r[i + 4..j] == mid
            && r[j..] == body + r[k..]
            && r[k..k + 4] == b && r[k + 4..] == c
  {
  }

  /** `g` agrees with `f` on the first `m` bytes. */
  predicate SameUpTo(f: seq<Byte>, g: seq<Byte>, m: nat) {
    m <= |f| && m <= |g| && f[..m] == g[..m]
  }

  lemma SameUpToTrans(f: seq<Byte>, g: seq<Byte>, h: seq<Byte>, m: nat, k: nat)
    requires SameUpTo(f, g, m) && SameUpTo(g, h, k) && k <= m
    ensures SameUpTo(f, h, k)
  {
    assert f[..m][..k] == f[..k] && g[..m][..k] == g[..k];
  }

  lemma SameWord(f: seq<Byte>, g: seq<Byte>, m: nat, i: nat)
    requires SameUpTo(f, g, m) && i + 4 <= m
    ensures WordAt(f, i) == WordAt(g, i)
  {
    assert f[..m][i..i + 4] == f[i..i + 4] && g[..m][i..i + 4] == g[i..i + 4];
  }

  lemma SameSlice(f: seq<Byte>, g: seq<Byte>, m: nat, i: nat, j: nat)
    requires SameUpTo(f, g, m) && i <= j <= m
    ensures f[i..j] == g[i..j]
  {
    assert f[..m][i..j] == f[i..j] && g[..m][i..j] == g[i..j];
  }

  /** The word where the reader expects the back link of the header: 0, or with a long root path the END
      byte behind the path, or the path's last character and that byte. */
  function HeaderLink(root: Text): nat {
    if |root| < LONG_ROOT then 0
    else if |root| < 0x4000 then 1
    else 0x100 + (root[|root| - 1] as int)
  }

  /** The header as the reader sees it: its first word is what `prevRecord` claims to be its end, and the
      link to the next record before that place is empty. For long root paths the byte at that place is
      a 0. */
  ghost predicate FreshLog(root: Text, h: seq<Byte>) {
    var end := HeaderEnd(root);
    && end <= |h| <= end + 2
    && WordAt(h, 0) == end && WordAt(h, end - 4) == 0 && WordAt(h, |h| - 8) == 0
    && WordAt(h, end - 8) == HeaderLink(root)
    && (|root| < LONG_ROOT ==> |h| == end)
    && (|root| >= LONG_ROOT ==> |h| > end && h[end] == 0)
  }

  /** The last four bytes of a long root path's element and the words behind it. */
  lemma ShiftedLink(h: seq<Byte>, front: seq<Byte>, c: Byte)
    requires h == front + [c, END_TAG] + Word(0) + Word(0)
    ensures WordAt(h, |h| - 9) == 1 && WordAt(h, |h| - 10) == 0x100 + c
  {
    ZeroWord();
    assert h[|h| - 9..|h| - 9 + 4] == [END_TAG, 0, 0, 0];
    assert h[|h| - 10..|h| - 10 + 4] == [c, END_TAG, 0, 0];
    assert Unsigned([0]) == 0 && Unsigned([0, 0]) == 0 && Unsigned([0, 0, 0]) == 0;
    assert [END_TAG, 0, 0, 0][1..] == [0, 0, 0];
    assert [END_TAG, 0, 0][1..] == [0, 0] && Unsigned([END_TAG, 0, 0]) == 1;
    assert [c, END_TAG, 0, 0][1..] == [END_TAG, 0, 0];
  }

  lemma HeaderIsFreshLog(root: Text)
    requires |root| < 0x10000
    ensures FreshLog(root, Header(root))
  {
    hide Opaque, LenBytes, Unsigned, Signed, Header, Word;
    var f, end := Header(root), HeaderEnd(root);
    HeaderParts(root);
    ZeroWord();
    assert f[0..0 + 4] == Word(end);
    assert forall i :: |f| - 8 <= i < |f| ==> f[i] == f[|f| - 8..][i - (|f| - 8)] == 0;
    assert f[end - 4..end - 4 + 4] == Word(0);
    assert f[|f| - 8..|f| - 8 + 4] == Word(0);
    WordRoundTrip(f, 0, end);
    WordRoundTrip(f, end - 4, 0);
    WordRoundTrip(f, |f| - 8, 0);
    if |root| >= LONG_ROOT {
      ShiftedLink(f, f[..|f| - 10], root[|root| - 1]);
    }
  }

  lemma HeaderParts(root: Text)
    requires |root| < 0x10000
    ensures var f := Header(root);
            && |f| == HeaderEnd(root) + (if |root| < 128 then 0 else if |root| < 0x4000 then 1 else 2)
            && Word(HeaderEnd(root)) <= f && f[|f| - 8..] == Word(0) + Word(0)
            && (root != [] ==> f == f[..|f| - 10] + [root[|root| - 1], END_TAG] + Word(0) + Word(0))
  {
    hide Word, LenBytes, LenHigh;
    LenBytesBelow(|root|);
    var path := Bytes(root);
    assert path[..Count16(|root|)] == path;
    if root != [] {
      assert path == path[..|root| - 1] + [root[|root| - 1]];
    }
  }

  lemma ZeroWord()
    ensures Word(0) == [0, 0, 0, 0]
  {
    WordBytes(0);
  }

  /** How many length bytes a root path needs. */
  lemma LenBytesBelow(n: nat)
    requires n < 0x10000
    ensures |LenBytes(n)| == if n < 128 then 1 else if n < 0x4000 then 2 else 3
  {
    assert LenHigh(0) == [];
    if n >= 128 {
      assert |LenHigh(n / 128)| == |LenHigh(n / 128 / 128)| + 1;
      if n >= 0x4000 {
        assert n / 128 / 128 / 128 == 0;
        assert |LenHigh(n / 128 / 128)| == |LenHigh(n / 128 / 128 / 128)| + 1;
      } else {
        assert n / 128 / 128 == 0;
      }
    }
  }

  /** What `prevRecord` holds after the first `k` records: the end of the file, but for the header what was
      computed from the root path. */
  function Boundary(root: Text, files: seq<seq<Byte>>, k: nat): nat
    requires k < |files|
  {
    if k == 0 then HeaderEnd(root) else |files[k]|
  }

  /** Record `i` took the file from its `i`-th to its next contents. */
  ghost predicate StepOk(root: Text, files: seq<seq<Byte>>, bodies: seq<seq<Byte>>, i: nat) {
    && i < |bodies| && i + 1 < |files|
    && Extended(files[i], Boundary(root, files, i), bodies[i], files[i + 1])
  }

  /** The contents of the file after the header and after each record. */
  ghost predicate History(root: Text, files: seq<seq<Byte>>, bodies: seq<seq<Byte>>) {
    && |files| == |bodies| + 1
    && FreshLog(root, files[0])
    && forall i {:trigger StepOk(root, files, bodies, i)} :: 0 <= i < |bodies| ==> StepOk(root, files, bodies, i)
  }

  lemma {:induction false} LaterIsLonger(root: Text, files: seq<seq<Byte>>, bodies: seq<seq<Byte>>, i: nat, k: nat)
    requires History(root, files, bodies) && i <= k < |files|
    ensures 16 <= Boundary(root, files, i) <= |files[i]| <= |files[k]|
    ensures i < k ==> |files[i]| + 8 <= |files[k]|
    decreases k - i, k
  {
    if i < k {
      assert StepOk(root, files, bodies, k - 1);
      LaterIsLonger(root, files, bodies, i, k - 1);
    } else if i > 0 {
      assert StepOk(root, files, bodies, i - 1);
      LaterIsLonger(root, files, bodies, i - 1, i - 1);
    }
  }

  /** Later records leave all bytes of the file alone up to the word that links to the next record. */
  lemma {:induction false} EarlierBytesKept(root: Text, files: seq<seq<Byte>>, bodies: seq<seq<Byte>>, k: nat, j: nat)
    requires History(root, files, bodies) && k <= j < |files|
    ensures 16 <= Boundary(root, files, k) <= |files[k]|
    ensures SameUpTo(files[j], files[k], Boundary(root, files, k) - 4)
    decreases j - k
  {
    LaterIsLonger(root, files, bodies, k, k);
    if k < j {
      assert StepOk(root, files, bodies, j - 1);
      LaterIsLonger(root, files, bodies, k, j - 1);
      EarlierBytesKept(root, files, bodies, k, j - 1);
      SameUpToTrans(files[j], files[j - 1], files[k], Boundary(root, files, j - 1) - 4, Boundary(root, files, k) - 4);
    }
  }

  /** The word 8 bytes before the end of each record is the place where the record before it ended, and
      for short root paths the word 8 bytes before the end of the header is 0. */
  lemma BackLink(root: Text, files: seq<seq<Byte>>, bodies: seq<seq<Byte>>, k: nat, n: nat)
    requires History(root, files, bodies) && k <= n < |files|
    ensures 16 <= |files[k]| <= |files[n]|
    ensures k > 0 ==> WordAt(files[n], |files[k]| - 8) == Boundary(root, files, k - 1)
    ensures k == 0 && |root| < LONG_ROOT ==> WordAt(files[n], |files[0]| - 8) == 0
  {
    LaterIsLonger(root, files, bodies, k, n);
    EarlierBytesKept(root, files, bodies, k, n);
    if k > 0 || |root| < LONG_ROOT {
      SameWord(files[n], files[k], |files[k]| - 4, |files[k]| - 8);
    }
    assert k > 0 ==> StepOk(root, files, bodies, k - 1);
  }

  /** The word 4 bytes before each of these places is the next end of a record, 0 at the tail. */
  lemma NextLink(root: Text, files: seq<seq<Byte>>, bodies: seq<seq<Byte>>, k: nat, n: nat)
    requires History(root, files, bodies) && k <= n < |files|
    ensures 16 <= Boundary(root, files, k) <= |files[k]| <= |files[n]|
    ensures WordAt(files[n], Boundary(root, files, k) - 4) == if k == n then 0 else |files[k + 1]|
  {
    LaterIsLonger(root, files, bodies, k, n);
    if k < n {
      LaterIsLonger(root, files, bodies, k + 1, n);
      EarlierBytesKept(root, files, bodies, k + 1, n);
      assert StepOk(root, files, bodies, k);
      SameWord(files[n], files[k + 1], |files[k + 1]| - 4, Boundary(root, files, k) - 4);
    } else {
      assert k > 0 ==> StepOk(root, files, bodies, k - 1);
    }
  }

  /** The first word of the file is what `prevRecord` claimed as the end of the header. */
  lemma FirstWord(root: Text, files: seq<seq<Byte>>, bodies: seq<seq<Byte>>, n: nat)
    requires History(root, files, bodies) && n < |files|
    ensures |files[n]| >= 16 && WordAt(files[n], 0) == HeaderEnd(root)
  {
    LaterIsLonger(root, files, bodies, 0, n);
    EarlierBytesKept(root, files, bodies, 0, n);
    SameWord(files[n], files[0], HeaderEnd(root) - 4, 0);
  }

  /** For long root paths the byte at the claimed end of the header is a 0, whatever has been logged. */
  lemma GapByte(root: Text, files: seq<seq<Byte>>, bodies: seq<seq<Byte>>, n: nat)
    requires History(root, files, bodies) && n < |files| && |root| >= LONG_ROOT
    ensures HeaderEnd(root) < |files[n]| && files[n][HeaderEnd(root)] == 0
  {
    var end := HeaderEnd(root);
    LaterIsLonger(root, files, bodies, 0, n);
    if n > 0 {
      assert StepOk(root, files, bodies, 0);
      LaterIsLonger(root, files, bodies, 0, 1);
      EarlierBytesKept(root, files, bodies, 1, n);
      var f, r := files[0], files[1];
      assert r[end] == r[end..|f|][0] == f[end..][0];
      assert files[n][end] == files[n][..|r| - 4][end] == r[..|r| - 4][end];
    }
  }

  /** What lies at the start of a record: its body, then the word that points back. */
  lemma RecordAt(root: Text, files: seq<seq<Byte>>, bodies: seq<seq<Byte>>, k: nat, n: nat)
    requires History(root, files, bodies) && k < n < |files|
    ensures 16 <= |files[k]| < |files[k + 1]| <= |files[n]|
    ensures files[n][|files[k]|..] == bodies[k] + (Word(Boundary(root, files, k)) + files[n][|files[k + 1]| - 4..])
  {
    var f, r, L := files[k], files[k + 1], files[n];
    assert StepOk(root, files, bodies, k);
    EarlierBytesKept(root, files, bodies, k + 1, n);
    LaterIsLonger(root, files, bodies, k + 1, n);
    LaterIsLonger(root, files, bodies, k, k + 1);
    SameSlice(L, r, |r| - 4, |f|, |r| - 8);
    SameSlice(L, r, |r| - 4, |r| - 8, |r| - 4);
    BodySlice(f, Boundary(root, files, k), bodies[k], r);
    SplitThree(L, |f|, |r| - 8, |r| - 4);
  }

  lemma BodySlice(f: seq<Byte>, prev: nat, body: seq<Byte>, r: seq<Byte>)
    requires Extended(f, prev, body, r)
    ensures r[|f|..|r| - 8] == body
  {
    assert r[|f|..|r|][..|body|] == r[|f|..|r| - 8];
  }

  lemma SplitThree(f: seq<Byte>, i: nat, j: nat, k: nat)
    requires i <= j <= k <= |f|
    ensures f[i..] == f[i..j] + (f[j..k] + f[k..])
  {
  }

  // ---------- records in the file ----------

  function Bodies(records: seq<Record>): (b: seq<seq<Byte>>)
    ensures |b| == |records|
    ensures forall i :: 0 <= i < |records| ==> b[i] == Encode(records[i])
  {
    seq(|records|, i requires 0 <= i < |records| => Encode(records[i]))
  }

  /** Where the record after the first `k` starts. */
  function Start(root: Text, bodies: seq<seq<Byte>>, k: nat): nat
    requires k <= |bodies|
  {
    if k == 0 then |Header(root)| else Start(root, bodies, k - 1) + |bodies[k - 1]| + 8
  }

  function StartOf(root: Text, records: seq<Record>, k: nat): nat
    requires k <= |records|
  {
    Start(root, Bodies(records), k)
  }

  /** The word written behind the `k`-th record. */
  function PrevOf(root: Text, records: seq<Record>, k: nat): nat
    requires k <= |records|
  {
    if k == 0 then HeaderEnd(root) else StartOf(root, records, k)
  }

  /** A value record without data, which replay cannot read. */
  predicate Unreadable(r: Record) {
    r.ValueRec? && r.data == []
  }

  /** A position word whose bytes could be taken for the front of a data element. */
  predicate Lookalike(position: nat) {
    position >= 0x10000 && position % 0x10000 == 0x100 * (OPAQUE_CODE as int) + DATA_TAG
  }

  /** The records fit a file with 31-bit positions, and no value record without data is followed by a
      position word that starts like a data element. */
  predicate Loggable(root: Text, records: seq<Record>): (fits: bool)
    ensures fits ==> |root| < 0x10000
  {
    && |root| < 0x10000
    && (forall i | 0 <= i < |records| :: Encodable(records[i]))
    && StartOf(root, records, |records|) <= MAX_INT32
    && (forall i | 0 <= i < |records| && Unreadable(records[i]) :: !Lookalike(PrevOf(root, records, i)))
  }

  lemma {:induction false} StartAppend(root: Text, bodies: seq<seq<Byte>>, more: seq<seq<Byte>>, k: nat)
    requires k <= |bodies|
    ensures Start(root, bodies + more, k) == Start(root, bodies, k)
  {
    if k > 0 {
      StartAppend(root, bodies, more, k - 1);
    }
  }

  lemma {:induction false} StartMonotone(root: Text, bodies: seq<seq<Byte>>, i: nat, k: nat)
    requires i <= k <= |bodies|
    ensures Start(root, bodies, i) <= Start(root, bodies, k)
  {
    if i < k {
      StartMonotone(root, bodies, i, k - 1);
    }
  }

  lemma BodiesConcat(a: seq<Record>, b: seq<Record>)
    ensures Bodies(a + b) == Bodies(a) + Bodies(b)
  {
  }

  /** What can be logged in one go can be logged record by record. */
  lemma LoggablePrefix(root: Text, records: seq<Record>, more: seq<Record>)
    requires Loggable(root, records + more)
    ensures Loggable(root, records)
  {
    hide Encode, Header, Encodable, Lookalike, Start, Unreadable;
    var all := records + more;
    BodiesConcat(records, more);
    StartMonotone(root, Bodies(all), |records|, |all|);
    forall i | 0 <= i <= |records| ensures StartOf(root, records, i) == StartOf(root, all, i) {
      StartAppend(root, Bodies(records), Bodies(more), i);
    }
    forall i | 0 <= i < |records|
      ensures Encodable(records[i])
      ensures Unreadable(records[i]) ==> !Lookalike(PrevOf(root, records, i))
    {
      assert PrevOf(root, records, i) == PrevOf(root, all, i);
      assert all[i] == records[i];
    }
  }

  lemma {:induction false} FileSizes(root: Text, files: seq<seq<Byte>>, bodies: seq<seq<Byte>>, k: nat)
    requires History(root, files, bodies) && files[0] == Header(root) && k <= |bodies|
    ensures |files[k]| == Start(root, bodies, k)
  {
    hide FreshLog, Header, WordAt, SameUpTo;
    if k > 0 {
      FileSizes(root, files, bodies, k - 1);
      assert StepOk(root, files, bodies, k - 1);
    }
  }

  /** The contents of the file while the records were logged. */
  ghost predicate FileOf(root: Text, records: seq<Record>, files: seq<seq<Byte>>) {
    History(root, files, Bodies(records)) && files[0] == Header(root)
  }

  /** Reading at the start of a record gives that record, and fails exactly for the unreadable ones. More
      bytes may follow the log. */
  lemma ReadAt(root: Text, files: seq<seq<Byte>>, records: seq<Record>, k: nat, f: seq<Byte>)
    requires Loggable(root, records) && FileOf(root, records, files)
    requires k < |records| && files[|records|] <= f
    ensures 16 <= |files[k]| < |files[|records|]| <= |f| && f[|files[k]|] == ENTRY_TAG
    ensures Unreadable(records[k]) ==> ReadRecord(f[|files[k]|..]) == Failed
    ensures !Unreadable(records[k]) ==>
              ReadRecord(f[|files[k]|..]).Got? && ReadRecord(f[|files[k]|..]).value == records[k]
  {
    hide Extended, Lookalike, Encode, ReadRecord, FreshLog, Word;
    var n := |records|;
    RecordAt(root, files, Bodies(records), k, n);
    FileSizes(root, files, Bodies(records), k);
    var prev := Boundary(root, files, k);
    var behind := files[n][|files[k + 1]| - 4..];
    var rest := Word(prev) + (behind + f[|files[n]|..]);
    TornSlice(files[n], f, |files[k]|, Encode(records[k]), Word(prev), behind);
    assert f[|files[k]|] == f[|files[k]|..][0];
    ReadRest(records[k], prev, rest);
  }

  lemma TornSlice(log: seq<Byte>, f: seq<Byte>, i: nat, a: seq<Byte>, b: seq<Byte>, c: seq<Byte>)
    requires log <= f && i <= |log| && log[i..] == a + (b + c)
    ensures f[i..] == a + (b + (c + f[|log|..]))
  {
    assert f[i..] == log[i..] + f[|log|..];
  }

  lemma ReadRest(r: Record, prev: nat, rest: seq<Byte>)
    requires Encodable(r) && Word(prev) <= rest
    requires Unreadable(r) ==> !Lookalike(prev)
    ensures (Encode(r) + rest)[0] == ENTRY_TAG
    ensures Unreadable(r) ==> ReadRecord(Encode(r) + rest) == Failed
    ensures !Unreadable(r) ==> ReadRecord(Encode(r) + rest).Got? && ReadRecord(Encode(r) + rest).value == r
  {
    if Unreadable(r) {
      NotAnElement(prev, rest);
      EmptyValueUnreadable(r.path, rest);
    } else {
      RecordRoundTrip(r, rest);
    }
  }

  /** A position word that is no lookalike is no data element either: below 65536 its length byte is 0 and
      the byte after that is not the END byte. */
  lemma NotAnElement(prev: nat, rest: seq<Byte>)
    requires Word(prev) <= rest && !Lookalike(prev)
    ensures !(rest[0] == DATA_TAG && ReadElement(rest[1..]).Got?)
  {
    hide Word, ReadElement, Lookalike;
    WordBytes(prev);
    assert forall i :: 0 <= i < 4 ==> rest[i] == Word(prev)[i];
    if rest[0] == DATA_TAG {
      if rest[1] == OPAQUE_CODE {
        HighBytesZero(prev);
        EmptyThenNoEnd(rest);
      } else {
        NoOpaque(rest[1..]);
      }
    }
  }

  lemma HighBytesZero(prev: nat)
    requires !Lookalike(prev) && prev % 256 == DATA_TAG as int && prev / 256 % 256 == OPAQUE_CODE as int
    ensures prev / 0x10000 % 256 == 0 && prev / 0x100_0000 % 256 == 0
  {
    assert prev % 0x10000 == prev / 256 % 256 * 256 + prev % 256;
  }

  lemma EmptyThenNoEnd(rest: seq<Byte>)
    requires |rest| >= 4 && rest[1] == OPAQUE_CODE && rest[2] == 0 && rest[3] == 0
    ensures ReadElement(rest[1..]).Failed?
  {
    assert rest[1..][1..] == rest[2..] && rest[2..][1..] == rest[3..];
    assert ReadLen(rest[2..]) == Got(0, rest[3..]);
    assert rest[3..][0..] == rest[3..];
  }

  lemma NoOpaque(input: seq<Byte>)
    requires input == [] || input[0] != OPAQUE_CODE
    ensures ReadElement(input).Failed?
  {
  }

  /** A lookalike can indeed be read: at position 115528, followed by a record that ends at a position whose
      low byte is the END byte, the reader takes the two words for an element with one NUL. */
  lemma LookalikeIsRead(p: Path, next: nat, more: seq<Byte>)
    requires ValidPath(p) && |Join(p)| < MAX_FIELD && next % 256 == END_TAG as int
    ensures Lookalike(115528)
    ensures var r := ReadRecord(Encode(ValueRec(p, [])) + (Word(115528) + Word(next) + more));
            r.Got? && r.value == ValueRec(p, [])
  {
    hide ReadRecord, Encode;
    var rest := Word(115528) + Word(next) + more;
    LookalikeElement(next, more);
    EmptyValueUnreadable(p, rest);
  }

  lemma LookalikeElement(next: nat, more: seq<Byte>)
    requires next % 256 == END_TAG as int
    ensures var rest := Word(115528) + Word(next) + more;
            && rest[0] == DATA_TAG && ReadElement(rest[1..]).Got?
            && CStr(ReadElement(rest[1..]).value) == []
  {
    hide Word;
    var a, b := Word(115528), Word(next);
    var rest := a + b + more;
    WordBytes(115528);
    WordBytes(next);
    assert a == [DATA_TAG, OPAQUE_CODE, 1, 0];
    assert rest[1..] == [OPAQUE_CODE] + rest[2..] && rest[2..] == [1] + rest[3..];
    assert rest[3..] == [0] + rest[4..] && rest[4..] == b + more;
    assert ReadLen(rest[2..]) == Got(1, rest[3..]);
    assert rest[3..][..1] == [0] && rest[3..][1..] == rest[4..];
  }

  // ---------- the bytes themselves ----------

  /** A position word: four bytes, the low one first, the top bit of the last one the sign. */
  lemma WordIs(f: seq<Byte>, i: nat)
    requires i + 4 <= |f|
    ensures WordAt(f, i) == f[i] + 256 * f[i + 1] + 65536 * f[i + 2]
                            + 16777216 * (if f[i + 3] < 128 then f[i + 3] as int else f[i + 3] as int - 256)
  {
    var w := f[i..i + 4];
    assert w == [f[i], f[i + 1], f[i + 2], f[i + 3]];
    FourBytes(f[i], f[i + 1], f[i + 2], f[i + 3]);
  }

  lemma FourBytes(a: Byte, b: Byte, c: Byte, d: Byte)
    ensures Unsigned([a, b, c, d]) == a as int + 256 * b as int + 65536 * c as int + 16777216 * d as int
  {
    assert [a, b, c, d][1..] == [b, c, d] && [b, c, d][1..] == [c, d] && [c, d][1..] == [d] && [d][1..] == [];
    assert Unsigned([d]) == d as int;
    assert Unsigned([c, d]) == c as int + 256 * d as int;
    assert Unsigned([b, c, d]) == b as int + 256 * Unsigned([c, d]);
    assert Unsigned([a, b, c, d]) == a as int + 256 * Unsigned([b, c, d]);
  }

  /** The header of a log. */
  lemma HeaderBytes(root: Text)
    requires |root| < 65520
    ensures Header(root) == [(|root| + 16) % 256, (|root| + 16) / 256, 0, 0, 0x52, 0xC3] + LenBytes(|root|)
                            + Bytes(root) + [1, 0, 0, 0, 0, 0, 0, 0, 0]
  {
    hide LenBytes, Word;
    ZeroWord();
    WordBytes(|root| + 16);
    assert Word(|root| + 16) == [(|root| + 16) % 256, (|root| + 16) / 256, 0, 0];
    assert Bytes(root)[..Count16(|root|)] == Bytes(root);
    assert [1] + [0, 0, 0, 0] + [0, 0, 0, 0] == [1, 0, 0, 0, 0, 0, 0, 0, 0];
  }
}
