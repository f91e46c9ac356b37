/** `DmProcessNotification`: the fields of an OMA DM Package #0. */
module Notification {
  import opened DmText

  const DIGEST_LENGTH := 16
  const HEADER_LENGTH := 24
  /** `sizeof(server_data)` */
  const SERVER_ID_BUFFER := 24

  /** A package as the protocol lays it out: 10 bits of version, 2 of user interaction mode, 1 of initiator,
      27 reserved, 16 of session id, then the server id behind its length, then the vendor's own bytes. */
  datatype Package = Package(digest: seq<Byte>, version: nat, uiMode: nat, initiator: nat, reserved: nat,
                             sessionId: nat, serverId: seq<Byte>, vendor: seq<Byte>)

  predicate InRange(p: Package) {
    && |p.digest| == DIGEST_LENGTH && p.version < 1024 && p.uiMode < 4 && p.initiator < 2
    && p.reserved < 0x800_0000 && p.sessionId < 0x10000 && 0 < |p.serverId| < SERVER_ID_BUFFER
  }

  /** The first 16 bits behind the digest: version, mode, initiator and the top 3 reserved bits. */
  function Flags(p: Package): (t: nat)
    requires InRange(p)
    ensures t < 0x10000
  {
    p.version * 64 + p.uiMode * 16 + p.initiator * 8 + p.reserved / 0x100_0000
  }

  /** Two bytes, high byte first. */
  function Word16(high: Byte, low: Byte): (v: nat)
    ensures v < 0x10000
  {
    high as nat * 256 + low as nat
  }

  function Big16(v: nat): seq<Byte>
    requires v < 0x10000
  {
    [v / 256, v % 256]
  }

  function Encode(p: Package): (data: seq<Byte>)
    requires InRange(p)
    ensures |data| == HEADER_LENGTH + |p.serverId| + |p.vendor|
  {
    p.digest + Big16(Flags(p)) + [p.reserved / 0x10000 % 256, p.reserved / 256 % 256, p.reserved % 256]
    + Big16(p.sessionId) + [|p.serverId|] + p.serverId + p.vendor
  }

  /** What the bytes of a package say, read by position. */
  function Decode(data: seq<Byte>): (p: Package)
    requires HEADER_LENGTH <= |data| && HEADER_LENGTH + data[23] <= |data|
  {
    var flags := Word16(data[16], data[17]);
    Package(data[..16], flags / 64, flags / 16 % 4, flags / 8 % 2,
            Reserved(flags % 8, data[18], data[19], data[20]),
            Word16(data[21], data[22]), data[24..24 + data[23]], data[24 + data[23]..])
  }

  lemma FlagsSplit(version: nat, uiMode: nat, initiator: nat, top: nat)
    requires uiMode < 4 && initiator < 2 && top < 8
    ensures var t := version * 64 + uiMode * 16 + initiator * 8 + top;
            t / 64 == version && t / 16 % 4 == uiMode && t / 8 % 2 == initiator && t % 8 == top
  {
    var t := version * 64 + uiMode * 16 + initiator * 8 + top;
    Divided8(version * 8 + uiMode * 2 + initiator, top);
    Divided16(version * 4 + uiMode, initiator * 8 + top);
    Divided64(version, uiMode * 16 + initiator * 8 + top);
  }

  lemma Divided8(q: nat, r: nat)
    requires r < 8
    ensures (q * 8 + r) / 8 == q && (q * 8 + r) % 8 == r
  {
  }

  lemma Divided16(q: nat, r: nat)
    requires r < 16
    ensures (q * 16 + r) / 16 == q
  {
  }

  lemma Divided64(q: nat, r: nat)
    requires r < 64
    ensures (q * 64 + r) / 64 == q
  {
  }

  lemma EncodedHeader(p: Package)
    requires InRange(p)
    ensures var d := Encode(p);
            && d[..16] == p.digest && d[16] == Flags(p) / 256 && d[17] == Flags(p) % 256
            && d[18] == p.reserved / 0x10000 % 256 && d[19] == p.reserved / 256 % 256 && d[20] == p.reserved % 256
            && d[21] == p.sessionId / 256 && d[22] == p.sessionId % 256 && d[23] == |p.serverId|
            && d[24..24 + |p.serverId|] == p.serverId && d[24 + |p.serverId|..] == p.vendor
  {
  }

  lemma WordBytes(v: nat)
    requires v < 0x10000
    ensures Word16(v / 256, v % 256) == v
  {
  }

  function Reserved(top: nat, a: Byte, b: Byte, c: Byte): nat {
    top * 0x100_0000 + a as nat * 0x10000 + Word16(b, c)
  }

  lemma ReservedSplit(r: nat)
    requires r < 0x800_0000
    ensures r / 0x100_0000 < 8
    ensures Reserved(r / 0x100_0000, r / 0x10000 % 256, r / 256 % 256, r % 256) == r
  {
    assert r == r / 256 * 256 + r % 256;
    assert r / 256 == r / 0x10000 * 256 + r / 256 % 256;
    assert r / 0x10000 == r / 0x100_0000 * 256 + r / 0x10000 % 256;
  }

  lemma ReservedJoin(top: nat, a: Byte, b: Byte, c: Byte)
    requires top < 8
    ensures var r := Reserved(top, a, b, c);
            r < 0x800_0000 && r / 0x100_0000 == top && r / 0x10000 % 256 == a && r / 256 % 256 == b && r % 256 == c
  {
    var r := Reserved(top, a, b, c);
    var high := top * 256 + a as nat;
    assert r / 0x10000 == high && r / 256 == high * 256 + b as nat;
    assert high / 256 == top;
  }

  lemma FlagsJoin(flags: nat)
    requires flags < 0x10000
    ensures flags / 64 < 1024
    ensures flags / 64 * 64 + flags / 16 % 4 * 16 + flags / 8 % 2 * 8 + flags % 8 == flags
  {
    assert flags == flags / 8 * 8 + flags % 8;
    assert flags / 8 == flags / 16 * 2 + flags / 8 % 2;
    assert flags / 16 == flags / 64 * 4 + flags / 16 % 4;
  }

  /** Reading what was written gives every field back. */
  lemma DecodeEncode(p: Package)
    requires InRange(p)
    ensures Decode(Encode(p)) == p
  {
    hide Encode, Word16, Reserved;
    EncodedHeader(p);
    ReservedSplit(p.reserved);
    FlagsSplit(p.version, p.uiMode, p.initiator, p.reserved / 0x100_0000);
    WordBytes(Flags(p));
    WordBytes(p.sessionId);
  }

  lemma Words(data: seq<Byte>)
    requires |data| >= 24
    ensures Word16(data[16], data[17]) == 256 * data[16] as int + data[17] as int
    ensures Word16(data[21], data[22]) == 256 * data[21] as int + data[22] as int
    ensures Word16(data[16], data[17]) / 16 % 4 == data[17] / 16 % 4
    ensures Word16(data[16], data[17]) / 8 % 2 == data[17] / 8 % 2
    ensures Word16(data[16], data[17]) / 64 == 4 * data[16] as int + data[17] / 64
    ensures Word16(data[16], data[17]) % 8 == data[17] % 8
  {
    LowBits(data[16] as int, data[17] as int);
  }

  lemma LowBits(v: nat, low: nat)
    requires low < 256
    ensures (256 * v + low) / 16 % 4 == low / 16 % 4 && (256 * v + low) / 8 % 2 == low / 8 % 2
    ensures (256 * v + low) / 64 == 4 * v + low / 64 && (256 * v + low) % 8 == low % 8
  {
    Mode(v, low / 16, low % 16);
    Initiator(v, low / 8, low % 8);
    Divided64(4 * v + low / 64, low % 64);
  }

  lemma Mode(v: nat, a: nat, r: nat)
    requires r < 16
    ensures (256 * v + (16 * a + r)) / 16 % 4 == a % 4
  {
    Divided16(16 * v + a, r);
    assert (256 * v + (16 * a + r)) / 16 == 4 * (4 * v) + a;
  }

  lemma Initiator(v: nat, a: nat, r: nat)
    requires r < 8
    ensures (256 * v + (8 * a + r)) / 8 % 2 == a % 2 && (256 * v + (8 * a + r)) % 8 == r
  {
    Divided8(32 * v + a, r);
    assert (256 * v + (8 * a + r)) / 8 == 2 * (16 * v) + a;
  }

  /** The fields of a package by byte and bit: ten bits of version, two of mode, one of initiator, 27 reserved
      bits, two bytes of session id, the server id behind its length byte, and the rest. */
  lemma FieldsAre(data: seq<Byte>)
    requires 24 <= |data| && 24 + data[23] <= |data|
    ensures Decode(data)
            == Package(data[..16], 4 * data[16] as int + data[17] / 64, data[17] / 16 % 4, data[17] / 8 % 2,
                       16777216 * (data[17] % 8) + 65536 * data[18] as int + 256 * data[19] as int + data[20] as int,
                       256 * data[21] as int + data[22] as int, data[24..24 + data[23]], data[24 + data[23]..])
  {
    Words(data);
  }

  /** Every package the parser accepts is the encoding of its fields: no bit is read twice or skipped. */
  lemma EncodeDecode(data: seq<Byte>)
    requires HEADER_LENGTH <= |data| && 0 < data[23] < SERVER_ID_BUFFER && HEADER_LENGTH + data[23] <= |data|
    ensures InRange(Decode(data)) && Encode(Decode(data)) == data
  {
    hide Encode, Word16, Big16, Reserved;
    var flags := Word16(data[16], data[17]);
    FlagsJoin(flags);
    ReservedJoin(flags % 8, data[18], data[19], data[20]);
    BytesWord(data[16], data[17]);
    BytesWord(data[21], data[22]);
    HeaderParts(data);
    TailParts(data, data[23]);
    Reassembled(Decode(data), data);
  }

  lemma BytesWord(high: Byte, low: Byte)
    ensures Big16(Word16(high, low)) == [high, low]
  {
  }

  lemma TailParts(data: seq<Byte>, n: nat)
    requires HEADER_LENGTH + n <= |data|
    ensures data[24..24 + n] + data[24 + n..] == data[24..]
  {
  }

  lemma Reassembled(p: Package, data: seq<Byte>)
    requires HEADER_LENGTH <= |data| && InRange(p) && p.digest == data[..16] && |p.serverId| == data[23]
    requires Big16(Flags(p)) == [data[16], data[17]] && Big16(p.sessionId) == [data[21], data[22]]
    requires p.reserved / 0x10000 % 256 == data[18] && p.reserved / 256 % 256 == data[19]
    requires p.reserved % 256 == data[20]
    requires p.serverId + p.vendor == data[24..]
    requires data == data[..16] + [data[16], data[17]] + [data[18], data[19], data[20]]
                     + [data[21], data[22]] + [data[23]] + data[24..]
    ensures Encode(p) == data
  {
    hide Flags, Big16;
    var front := p.digest + Big16(Flags(p)) + [data[18], data[19], data[20]] + Big16(p.sessionId) + [data[23]];
    assert front + p.serverId + p.vendor == front + (p.serverId + p.vendor);
  }

  lemma HeaderParts(data: seq<Byte>)
    requires HEADER_LENGTH <= |data|
    ensures data == data[..16] + [data[16], data[17]] + [data[18], data[19], data[20]]
                     + [data[21], data[22]] + [data[23]] + data[24..]
  {
  }

  /** `Overrun`: the parser copies bytes from behind the end of the buffer, and nothing is known about what
      follows. */
  datatype Status = Success | Fail | AuthFailed | Overrun

  /** The length byte announces a server id that would fit `server_data` but is not all there. */
  predicate RunsOver(data: seq<Byte>) {
    && HEADER_LENGTH <= |data| && 0 < data[23] < SERVER_ID_BUFFER
    && HEADER_LENGTH + data[23] > |data|
  }

  class DmtNotification {
    var uiMode: nat
    var initiator: nat
    var sessionId: nat
    var serverId: Text
    var authFlag: bool

    constructor ()
      ensures uiMode == 0 && initiator == 0 && sessionId == 0 && serverId == []
    {
      uiMode, initiator, sessionId, serverId, authFlag := 0, 0, 0, [], true;
    }

    /** `authenticated` and `flag` are the results of the server authentication, which runs last. Before it
        copies the server id the parser checks the length byte against its own buffer, not against the
        size of the package. */
    method Process(data: seq<Byte>, authenticated: bool, flag: bool) returns (status: Status, vendor: seq<Byte>)
      modifies this
      ensures status == Overrun <==> RunsOver(data)
      ensures status == Overrun <==> 24 <= |data| && 0 < data[23] < 24 && 24 + data[23] > |data|
      ensures status == Fail <==> |data| < 24 || data[23] == 0 || data[23] >= 24
      ensures |data| < 24 ==>
                uiMode == old(uiMode) && initiator == old(initiator) && sessionId == old(sessionId)
      ensures |data| >= 24 ==>
                && uiMode == data[17] / 16 % 4 && initiator == data[17] / 8 % 2
                && sessionId == 256 * data[21] as int + data[22] as int
      ensures status == Fail || status == Overrun ==> serverId == old(serverId) && authFlag == old(authFlag)
      ensures status == Success || status == AuthFailed ==>
                && serverId == CStr(data[24..24 + data[23]]) && vendor == data[24 + data[23]..]
                && authFlag == flag && (status == Success <==> authenticated)
    {
      hide Word16, Reserved, CStr;
      vendor := [];
      if |data| < HEADER_LENGTH {
        return Fail, vendor;
      }
      Words(data);
      var at := DIGEST_LENGTH;
      var tempData16: nat := Word16(data[at], data[at + 1]);
      at := at + 2;
      uiMode := tempData16 / 16 % 4;
      initiator := tempData16 / 8 % 2;
      at := at + 3;
      tempData16 := Word16(data[at], data[at + 1]);
      at := at + 2;
      sessionId := tempData16;
      var serverIdLen: nat := data[at];
      at := at + 1;
      if 0 < serverIdLen && serverIdLen < SERVER_ID_BUFFER {
        if at + serverIdLen > |data| {
          return Overrun, vendor;
        }
        serverId := CStr(data[at..at + serverIdLen]);
        at := at + serverIdLen;
      } else {
        return Fail, vendor;
      }
      if |data| > at {
        vendor := data[at..];
      }
      authFlag := flag;
      status := if authenticated then Success else AuthFailed;
    }
  }

  /** A package cut short makes the parser run over exactly when the cut is inside the server id. */
  lemma CutPackageRunsOver(p: Package, k: nat)
    requires InRange(p) && k <= |Encode(p)|
    ensures RunsOver(Encode(p)[..k]) <==> HEADER_LENGTH <= k < HEADER_LENGTH + |p.serverId|
  {
    hide Encode;
    EncodedHeader(p);
  }

  /** A package of the header alone, with a length byte of 23. */
  lemma HeaderAloneRunsOver()
    ensures var data: seq<Byte> := seq(23, _ => 0) + [23]; |data| == HEADER_LENGTH && RunsOver(data)
  {
    var data: seq<Byte> := seq(23, _ => 0) + [23];
    assert data[23] == 23;
  }

  /** Parsing an encoded package with a server id free of NULs returns every field, the id as text. */
  lemma ServerIdSurvives(p: Package, id: Text)
    requires InRange(p) && p.serverId == Bytes(id)
    ensures CStr(Decode(Encode(p)).serverId) == id
  {
    DecodeEncode(p);
    CStrOfBytes(id);
  }
}
