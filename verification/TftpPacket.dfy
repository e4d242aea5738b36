/**
 * tftp.cpp, classes Packet::Buffer, Packet, PacketRRQ, PacketData and PacketACK:
 * a 516-byte buffer that appends saturate, and the packet formats written to and
 * read from it.
 */
module TftpPacket {
  import opened Bytes

  const MAX_SIZE: nat := 516
  const BLOCK_SIZE: nat := MAX_SIZE - 4

  datatype Mode = Unknown | NetAscii | Octet | Mail

  datatype Packet =
    | RRQ(filename: seq<byte>, mode: Mode)
    | Data
    | Ack(id: uint16)
    | Error
    | Unrecognised

  // ----- the buffer as a value -----

  function First(s: seq<byte>): seq<byte> {
    s[..Min(|s|, MAX_SIZE)]
  }

  function AppendAll(parts: seq<seq<byte>>): seq<byte> {
    if parts == [] then [] else First(AppendAll(parts[..|parts| - 1]) + parts[|parts| - 1])
  }

  /** Whatever is appended, the buffer keeps the first 516 bytes of the concatenation. */
  lemma {:induction false} AppendAllIsPrefix(parts: seq<seq<byte>>)
    ensures AppendAll(parts) == First(Concat(parts))
  {
    if parts != [] {
      var init, last := parts[..|parts| - 1], parts[|parts| - 1];
      AppendAllIsPrefix(init);
      assert First(First(Concat(init)) + last) == First(Concat(init) + last);
    }
  }

  class Buffer {
    const data: array<byte>
    var size: nat

    ghost predicate Valid()
      reads this, data
    {
      data.Length == MAX_SIZE && size <= MAX_SIZE
    }

    ghost function Contents(): seq<byte>
      requires Valid()
      reads this, data
    {
      data[..size]
    }

    constructor ()
      ensures Valid() && fresh(data)
      ensures Contents() == [] && data[..] == Zeros(MAX_SIZE)
    {
      data := new byte[MAX_SIZE](_ => 0);
      size := 0;
    }

    method Clear()
      requires Valid()
      modifies this`size, data
      ensures Valid()
      ensures Contents() == [] && data[..] == Zeros(MAX_SIZE)
    {
      size := 0;
      forall i | 0 <= i < data.Length {
        data[i] := 0;
      }
    }

    method SetData(bytes: seq<byte>) returns (ok: bool)
      requires Valid()
      modifies this`size, data
      ensures Valid()
      ensures ok <==> |bytes| > 0
      ensures Contents() == if ok then First(bytes) else old(Contents())
      ensures data[size..] == old(data[..])[size..]
    {
      if |bytes| == 0 {
        return false;
      }
      size := Min(|bytes|, MAX_SIZE);
      forall i | 0 <= i < size {
        data[i] := bytes[i];
      }
      ok := true;
    }

    /** Appends as much as fits. An empty array is refused although it would fit. */
    method AddArray(bytes: seq<byte>) returns (ok: bool)
      requires Valid()
      modifies this`size, data
      ensures Valid()
      ensures Contents() == First(old(Contents()) + bytes)
      ensures ok <==> |bytes| > 0 && |old(Contents())| + |bytes| <= MAX_SIZE
      ensures data[size..] == old(data[..])[size..]
    {
      if |bytes| == 0 {
        return false;
      }
      var resSize := size + |bytes|;
      var src := 0;
      while size < resSize && size < MAX_SIZE
        invariant Valid()
        invariant size == old(size) + src && src <= |bytes|
        invariant Contents() == old(Contents()) + bytes[..src]
        invariant forall i :: size <= i < MAX_SIZE ==> data[i] == old(data[i])
      {
        data[size] := bytes[src];
        src := src + 1;
        size := size + 1;
      }
      assert Contents() == First(old(Contents()) + bytes);
      ok := resSize <= MAX_SIZE;
    }

    /** Reads `count` bytes at `offs`, however many of them were ever written. */
    method GetArray(offs: nat, count: nat) returns (ok: bool, out: seq<byte>)
      requires Valid()
      ensures ok <==> count > 0 && offs + count <= MAX_SIZE
      ensures ok ==> out == data[offs..offs + count]
    {
      out := [];
      if count == 0 || offs >= MAX_SIZE {
        return false, out;
      }
      var i := offs;
      while i < offs + count && i < MAX_SIZE
        invariant offs <= i <= offs + count && i <= MAX_SIZE
        invariant out == data[offs..i]
      {
        out := out + [data[i]];
        i := i + 1;
      }
      ok := offs + count <= MAX_SIZE;
    }
  }

  // ----- the packet formats as values -----

  function DataPacket(id: uint16, payload: seq<byte>): seq<byte> {
    First([0, 3] + BigEndian16(id) + payload)
  }

  function AckPacket(id: uint16): seq<byte> {
    [0, 4] + BigEndian16(id)
  }

  function ModeText(mode: Mode): seq<byte> {
    match mode
    case NetAscii => [110, 101, 116, 97, 115, 99, 105, 105]
    case Octet => [111, 99, 116, 101, 116]
    case Mail => [109, 97, 105, 108]
    case Unknown => []
  }

  function Ascii(s: string): (text: seq<byte>)
    ensures |text| == |s|
  {
    seq(|s|, i requires 0 <= i < |s| => s[i] as int % 256)
  }

  /** The mode texts are the words of RFC 1350 section 5, in lower case. */
  lemma ModeTexts()
    ensures ModeText(NetAscii) == Ascii("netascii")
    ensures ModeText(Octet) == Ascii("octet")
    ensures ModeText(Mail) == Ascii("mail")
  {
  }

  function RrqBody(name: seq<byte>, mode: Mode): seq<byte> {
    name + [0] + ModeText(mode) + [0]
  }

  /** The position of the first NUL at or after `from`, or the end of the data. */
  function NulFrom(data: seq<byte>, from: nat): (end: nat)
    requires from <= |data|
    ensures from <= end <= |data|
    ensures 0 !in data[from..end]
    ensures end < |data| ==> data[end] == 0
    decreases |data| - from
  {
    if from == |data| || data[from] == 0 then from
    else
      var end := NulFrom(data, from + 1);
      assert data[from..end] == [data[from]] + data[from + 1..end];
      end
  }

  function ModeOf(text: seq<byte>): Mode {
    if text == ModeText(NetAscii) then NetAscii
    else if text == ModeText(Octet) then Octet
    else if text == ModeText(Mail) then Mail
    else Unknown
  }

  /** What PacketRRQ::Read finds in the whole 516-byte buffer. */
  function ReadRrq(body: seq<byte>): Packet
    requires |body| == MAX_SIZE
  {
    var e := NulFrom(body, 0);
    var mode := if e + 1 >= MAX_SIZE then [] else body[e + 1..NulFrom(body, e + 1)];
    RRQ(body[..e], ModeOf(mode))
  }

  lemma NulFromUnique(data: seq<byte>, from: nat, end: nat)
    requires from <= end <= |data|
    requires forall i :: from <= i < end ==> data[i] != 0
    requires end < |data| ==> data[end] == 0
    ensures NulFrom(data, from) == end
  {
    var e := NulFrom(data, from);
    forall i | from <= i < e ensures data[i] != 0 {
      assert data[i] == data[from..e][i - from];
    }
  }

  ghost predicate RequestOpens(body: seq<byte>, name: seq<byte>, mode: Mode) {
    0 !in name && (RrqBody(name, mode) <= body || name + [0] + ModeText(mode) == body)
  }

  lemma ModeOfIff(text: seq<byte>, mode: Mode)
    requires mode != Unknown
    ensures ModeOf(text) == mode <==> text == ModeText(mode)
    ensures |ModeText(mode)| > 0
  {
  }

  lemma ReadRrqOnlyIf(body: seq<byte>, name: seq<byte>, mode: Mode)
    requires |body| == MAX_SIZE && mode != Unknown
    requires ReadRrq(body) == RRQ(name, mode)
    ensures RequestOpens(body, name, mode)
  {
    var e := NulFrom(body, 0);
    ModeOfIff([], mode);
    var f := NulFrom(body, e + 1);
    ModeOfIff(body[e + 1..f], mode);
    NamedRequestOpens(body, e, f, name, mode);
  }

  lemma NamedRequestOpens(body: seq<byte>, e: nat, f: nat, name: seq<byte>, mode: Mode)
    requires |body| == MAX_SIZE && e + 1 <= f <= MAX_SIZE
    requires 0 !in body[0..e] && body[e] == 0 && (f < MAX_SIZE ==> body[f] == 0)
    requires name == body[..e] && ModeText(mode) == body[e + 1..f]
    ensures RequestOpens(body, name, mode)
  {
    assert body[0..e] == name;
    var text := ModeText(mode);
    assert body[..f] == name + [0] + text;
    if f < MAX_SIZE {
      assert body[..f + 1] == name + [0] + text + [0];
    } else {
      assert body[..f] == body;
    }
  }

  lemma ReadRrqIf(body: seq<byte>, name: seq<byte>, mode: Mode)
    requires |body| == MAX_SIZE && mode != Unknown
    requires RequestOpens(body, name, mode)
    ensures ReadRrq(body) == RRQ(name, mode)
  {
    var text := ModeText(mode);
    var n, end := |name|, |name| + 1 + |text|;
    ModeOfIff(text, mode);
    var head := name + [0] + text;
    assert RrqBody(name, mode)[..end] == head;
    assert body[..end] == head;
    assert body[..n] == head[..n] == name;
    assert body[n] == head[n] == 0;
    assert body[n + 1..end] == head[n + 1..] == text;
    if end < MAX_SIZE {
      assert body[end] == RrqBody(name, mode)[end] == 0;
    }
    StringAt(body, 0, n, name);
    StringAt(body, n + 1, end, text);
  }

  lemma StringAt(body: seq<byte>, from: nat, end: nat, text: seq<byte>)
    requires from <= end <= |body| && body[from..end] == text && 0 !in text
    requires end < |body| ==> body[end] == 0
    ensures NulFrom(body, from) == end
  {
    forall i | from <= i < end ensures body[i] != 0 {
      assert body[i] == text[i - from];
    }
    NulFromUnique(body, from, end);
  }

  /**
   * A request names file `name` in mode `mode` exactly when its body starts with the
   * NUL-terminated name and mode; the mode's terminator may fall just past the buffer.
   */
  lemma ReadRrqIff(body: seq<byte>, name: seq<byte>, mode: Mode)
    requires |body| == MAX_SIZE && mode != Unknown
    ensures ReadRrq(body) == RRQ(name, mode) <==>
            0 !in name && (RrqBody(name, mode) <= body || name + [0] + ModeText(mode) == body)
  {
    if ReadRrq(body) == RRQ(name, mode) {
      ReadRrqOnlyIf(body, name, mode);
    }
    if RequestOpens(body, name, mode) {
      ReadRrqIf(body, name, mode);
    }
  }

  /** Packet::GetVal<std::string>: the loop over the raw buffer. */
  method ReadString(b: Buffer, offs: nat) returns (ok: bool, text: seq<byte>, next: nat)
    requires b.Valid()
    ensures ok <==> offs < MAX_SIZE
    ensures ok ==> text == b.data[offs..NulFrom(b.data[..], offs)]
    ensures ok ==> next == NulFrom(b.data[..], offs) + 1
  {
    if offs >= MAX_SIZE {
      return false, [], offs;
    }
    var i := offs;
    while i < MAX_SIZE && b.data[i] != 0
      invariant offs <= i <= MAX_SIZE
      invariant forall j :: offs <= j < i ==> b.data[j] != 0
    {
      i := i + 1;
    }
    NulFromUnique(b.data[..], offs, i);
    return true, b.data[offs..i], i + 1;
  }

  method ReadRequest(b: Buffer) returns (p: Packet)
    requires b.Valid()
    ensures p == ReadRrq(b.data[..])
  {
    var ok, name, offs := ReadString(b, 0);
    var okMode, modeText, end := ReadString(b, offs);
    p := RRQ(name, ModeOf(if okMode then modeText else []));
    assert b.data[..][..NulFrom(b.data[..], 0)] == name;
  }

  method ReadAck(b: Buffer) returns (p: Packet)
    requires b.Valid()
    ensures p == Ack(FromBigEndian16(b.data[0], b.data[1])) == Ack(256 * (b.data[0] as int) + b.data[1])
  {
    var ok, v := b.GetArray(0, 2);
    p := Ack(FromBigEndian16(v[0], v[1]));
  }

  method NewData(id: uint16, payload: seq<byte>) returns (b: Buffer)
    ensures b.Valid() && fresh(b) && fresh(b.data)
    ensures b.Contents() == DataPacket(id, payload)
  {
    b := new Buffer();
    var ok := b.AddArray(BigEndian16(3));
    ok := b.AddArray(BigEndian16(id));
    ok := b.AddArray(payload);
    assert [0, 3] + BigEndian16(id) == First(First([] + BigEndian16(3)) + BigEndian16(id));
  }

  // ----- the other side of the wire, as RFC 1350 section 5 reads it -----

  datatype DataView = NotData | DataView(id: uint16, payload: seq<byte>)

  function ParseData(p: seq<byte>): DataView {
    if |p| < 4 || p[0] != 0 || p[1] != 3 then NotData
    else DataView(FromBigEndian16(p[2], p[3]), p[4..])
  }

  /**
   * The opcode and the id stand most significant byte first, and a block survives the
   * packet format exactly when it has at most 512 bytes.
   */
  lemma DataRoundTrip(id: uint16, payload: seq<byte>)
    ensures
      var p := DataPacket(id, payload);
      4 <= |p| <= 516 && p[0] == 0 && p[1] == 3 && 256 * (p[2] as int) + p[3] == id
    ensures ParseData(DataPacket(id, payload)).DataView?
    ensures ParseData(DataPacket(id, payload)).id == id
    ensures ParseData(DataPacket(id, payload)).payload == payload[..Min(|payload|, BLOCK_SIZE)]
    ensures ParseData(DataPacket(id, payload)).payload == payload <==> |payload| <= 512
  {
    var head := [0, 3] + BigEndian16(id);
    assert |head| == 4;
    var p := DataPacket(id, payload);
    assert p[2] == id / 256 && p[3] == id % 256;
    assert p[4..] == payload[..Min(|payload|, BLOCK_SIZE)];
  }

  // ----- Session::DetectInputPkt -----

  /** kBuffMaxSize: the size of the receive buffer in words, used as a size in bytes. */
  const RECEIVE_SIZE: nat := MAX_SIZE / 2

  /** The rest of the receive buffer, which nothing ever writes, and two bytes behind it. */
  const BEYOND_SIZE: nat := MAX_SIZE + 2 - RECEIVE_SIZE

  /** What is received: only the first half of the buffer is cleared and filled. */
  function Heard(datagram: seq<byte>): (h: seq<byte>)
    ensures |h| == RECEIVE_SIZE
  {
    var n := Min(|datagram|, RECEIVE_SIZE);
    datagram[..n] + Zeros(RECEIVE_SIZE - n)
  }

  /** The body is copied from offset 2 with the full length of the buffer. */
  function InputBody(datagram: seq<byte>, beyond: seq<byte>): (body: seq<byte>)
    requires |beyond| == BEYOND_SIZE
    ensures |body| == MAX_SIZE
  {
    Heard(datagram)[2..] + beyond
  }

  /** The opcode is the second byte alone. */
  function Detect(datagram: seq<byte>, beyond: seq<byte>): Packet
    requires |beyond| == BEYOND_SIZE
  {
    var body := InputBody(datagram, beyond);
    match Heard(datagram)[1]
    case 1 => ReadRrq(body)
    case 3 => Data
    case 4 => Ack(FromBigEndian16(body[0], body[1]))
    case 5 => Error
    case _ => Unrecognised
  }

  method DetectInputPkt(datagram: seq<byte>, beyond: seq<byte>) returns (p: Packet)
    requires |beyond| == BEYOND_SIZE
    ensures p == Detect(datagram, beyond)
  {
    var raw := Heard(datagram);
    var b := new Buffer();
    var ok := b.SetData(raw[2..] + beyond);
    assert b.data[..] == b.Contents() == InputBody(datagram, beyond);
    var op := raw[1];
    match op {
      case 1 => p := ReadRequest(b);
      case 3 => p := Data;
      case 4 => p := ReadAck(b);
      case 5 => p := Error;
      case _ => p := Unrecognised;
    }
  }

  /** An ACK as RFC 1350 writes it is always understood. */
  lemma AckDetected(id: uint16, beyond: seq<byte>)
    requires |beyond| == BEYOND_SIZE
    ensures Detect(AckPacket(id), beyond) == Ack(id)
  {
    var p := AckPacket(id);
    assert |p| == 4;
    assert Heard(p)[..4] == p;
    assert Heard(p)[2] == id / 256 && Heard(p)[3] == id % 256;
    assert InputBody(p, beyond)[0] == Heard(p)[2] && InputBody(p, beyond)[1] == Heard(p)[3];
  }

  /** The id of an ACK is read most significant byte first. */
  lemma AckIdIs(hi: byte, lo: byte, beyond: seq<byte>)
    requires |beyond| == BEYOND_SIZE
    ensures Detect([0, 4, hi, lo], beyond) == Ack(256 * hi + lo)
  {
    assert AckPacket(256 * hi + lo) == [0, 4, hi, lo];
    AckDetected(256 * hi + lo, beyond);
  }

  /** The second byte of a datagram; what is not received reads as zero. */
  function Opcode(datagram: seq<byte>): byte {
    if |datagram| < 2 then 0 else datagram[1]
  }

  /** The second byte alone decides what kind of packet a datagram is. */
  lemma KindIff(datagram: seq<byte>, beyond: seq<byte>)
    requires |beyond| == BEYOND_SIZE
    ensures
      var p := Detect(datagram, beyond);
      && (p.RRQ? <==> Opcode(datagram) == 1)
      && (p.Data? <==> Opcode(datagram) == 3)
      && (p.Ack? <==> Opcode(datagram) == 4)
      && (p.Error? <==> Opcode(datagram) == 5)
      && (p.Unrecognised? <==> Opcode(datagram) !in {1, 3, 4, 5})
  {
    hide ReadRrq;
    ReadRrqIsRequest(InputBody(datagram, beyond));
  }

  lemma ReadRrqIsRequest(body: seq<byte>)
    requires |body| == MAX_SIZE
    ensures ReadRrq(body).RRQ?
  {
  }

  /** A request of any kind: the name with its terminator, and whatever follows. */
  function NamedRequest(name: seq<byte>, rest: seq<byte>): seq<byte> {
    [0, 1] + name + [0] + rest
  }

  lemma HeardIs(datagram: seq<byte>)
    ensures forall i :: 0 <= i < RECEIVE_SIZE ==> Heard(datagram)[i] == if i < |datagram| then datagram[i] else 0
  {
  }

  /** The part of a request's body that is received, and what the reader sees behind it. */
  lemma RequestBody(name: seq<byte>, rest: seq<byte>, beyond: seq<byte>)
    requires |beyond| == BEYOND_SIZE
    ensures
      var body, sent := InputBody(NamedRequest(name, rest), beyond), name + [0] + rest;
      && Detect(NamedRequest(name, rest), beyond) == ReadRrq(body)
      && (forall i :: 0 <= i < RECEIVE_SIZE - 2 ==> body[i] == if i < |sent| then sent[i] else 0)
      && (forall i :: RECEIVE_SIZE - 2 <= i < MAX_SIZE ==> body[i] == beyond[i - (RECEIVE_SIZE - 2)])
  {
    hide Heard, ReadRrq;
    var d, sent := NamedRequest(name, rest), name + [0] + rest;
    assert d == [0, 1] + sent;
    HeardIs(d);
    assert Heard(d)[1] == 1;
  }

  ghost predicate NameAlwaysRead(name: seq<byte>, rest: seq<byte>) {
    forall beyond :: |beyond| == BEYOND_SIZE ==>
      var p := Detect(NamedRequest(name, rest), beyond);
      p.RRQ? && p.filename == name
  }

  /** Whatever memory holds, a name that is received with its terminator is read as it was sent. */
  lemma NameDetected(name: seq<byte>, rest: seq<byte>, beyond: seq<byte>)
    requires |beyond| == BEYOND_SIZE && 0 !in name
    requires |NamedRequest(name, [])| <= RECEIVE_SIZE
    ensures Detect(NamedRequest(name, rest), beyond).RRQ?
    ensures Detect(NamedRequest(name, rest), beyond).filename == name
  {
    hide Detect, InputBody, NulFrom, ModeOf;
    RequestBody(name, rest, beyond);
    var body, sent := InputBody(NamedRequest(name, rest), beyond), name + [0] + rest;
    assert |NamedRequest(name, [])| == |name| + 3;
    assert body[0..|name|] == name by {
      assert forall i :: 0 <= i < |name| ==> body[i] == sent[i] == name[i];
    }
    assert body[|name|] == sent[|name|] == 0;
    StringAt(body, 0, |name|, name);
    assert body[..|name|] == body[0..|name|];
  }

  /** Any other name ends in memory that was never written: one byte of it makes it another. */
  lemma LongNameMisread(name: seq<byte>, rest: seq<byte>, beyond: seq<byte>)
    requires |beyond| == BEYOND_SIZE && 0 !in name
    requires |NamedRequest(name, [])| > RECEIVE_SIZE
    requires beyond[0] == if |name| == RECEIVE_SIZE - 2 then 1 else 0
    ensures Detect(NamedRequest(name, rest), beyond).RRQ?
    ensures Detect(NamedRequest(name, rest), beyond).filename != name
    ensures |name| > RECEIVE_SIZE - 2 ==>
              Detect(NamedRequest(name, rest), beyond).filename == name[..RECEIVE_SIZE - 2]
  {
    hide Detect, InputBody, NulFrom, ModeOf;
    RequestBody(name, rest, beyond);
    var body, n := InputBody(NamedRequest(name, rest), beyond), RECEIVE_SIZE - 2;
    assert |NamedRequest(name, [])| == |name| + 3;
    assert body[n] == beyond[0];
    if |name| > n {
      assert body[0..n] == name[..n] by {
        assert forall i :: 0 <= i < n ==> body[i] == (name + [0] + rest)[i] == name[i];
      }
      StringAt(body, 0, n, name[..n]);
      assert body[..n] == body[0..n];
    } else {
      assert |name| == n && body[|name|] == 1;
    }
  }

  /** A name of 300 bytes with zeros in the unwritten memory is read as its first 256. */
  lemma LongNameIsCut(rest: seq<byte>)
    ensures
      var p := Detect(NamedRequest(Repeat(97, 300), rest), Zeros(BEYOND_SIZE));
      p.RRQ? && p.filename == Repeat(97, 256) != Repeat(97, 300)
  {
    LongNameMisread(Repeat(97, 300), rest, Zeros(BEYOND_SIZE));
    assert Repeat<byte>(97, 300)[..256] == Repeat(97, 256);
  }

  /** The name of a request is understood, whatever memory holds, exactly when it is received whole. */
  lemma NameReadIff(name: seq<byte>, rest: seq<byte>)
    requires 0 !in name
    ensures NameAlwaysRead(name, rest) <==> |NamedRequest(name, [])| <= 258
  {
    hide Detect;
    if |NamedRequest(name, [])| <= RECEIVE_SIZE {
      forall beyond | |beyond| == BEYOND_SIZE
        ensures
          var p := Detect(NamedRequest(name, rest), beyond);
          p.RRQ? && p.filename == name
      {
        NameDetected(name, rest, beyond);
      }
    } else {
      LongNameMisread(name, rest, Repeat(if |name| == RECEIVE_SIZE - 2 then 1 else 0, BEYOND_SIZE));
    }
  }

  ghost predicate RequestAlwaysRead(name: seq<byte>, mode: Mode) {
    forall beyond :: |beyond| == BEYOND_SIZE ==> Detect([0, 1] + RrqBody(name, mode), beyond) == RRQ(name, mode)
  }

  lemma RequestIs(name: seq<byte>, mode: Mode)
    ensures [0, 1] + RrqBody(name, mode) == NamedRequest(name, ModeText(mode) + [0])
    ensures RrqBody(name, mode) == name + [0] + (ModeText(mode) + [0])
  {
  }

  lemma RequestDetected(name: seq<byte>, mode: Mode, beyond: seq<byte>)
    requires |beyond| == BEYOND_SIZE && mode != Unknown && 0 !in name
    requires 2 + |RrqBody(name, mode)| <= RECEIVE_SIZE
    ensures Detect([0, 1] + RrqBody(name, mode), beyond) == RRQ(name, mode)
  {
    hide Detect, InputBody, ReadRrq, RrqBody;
    RequestIs(name, mode);
    RequestBody(name, ModeText(mode) + [0], beyond);
    var body, sent := InputBody([0, 1] + RrqBody(name, mode), beyond), RrqBody(name, mode);
    assert body[..|sent|] == sent;
    ReadRrqIff(body, name, mode);
  }

  /** A request that is cut is misread at the latest at its last terminator. */
  lemma CutRequestMisread(name: seq<byte>, mode: Mode, beyond: seq<byte>)
    requires beyond == Repeat(1, BEYOND_SIZE) && mode != Unknown && 0 !in name
    requires 2 + |RrqBody(name, mode)| > RECEIVE_SIZE
    ensures Detect([0, 1] + RrqBody(name, mode), beyond) != RRQ(name, mode)
  {
    hide Detect, InputBody, ReadRrq;
    RequestIs(name, mode);
    RequestBody(name, ModeText(mode) + [0], beyond);
    var body, sent := InputBody([0, 1] + RrqBody(name, mode), beyond), RrqBody(name, mode);
    ReadRrqIff(body, name, mode);
    ModeOfIff([], mode);
    assert |sent| <= MAX_SIZE ==> body[|sent| - 1] == 1 && sent[|sent| - 1] == 0;
    assert body[MAX_SIZE - 1] == 1;
  }

  /**
   * A request is understood, whatever the unwritten memory holds, exactly when it is at
   * most 258 bytes long, half of what the receive buffer has room for.
   */
  lemma RequestDetectedIff(name: seq<byte>, mode: Mode)
    requires mode != Unknown && 0 !in name
    ensures RequestAlwaysRead(name, mode) <==> 2 + |RrqBody(name, mode)| <= 258
  {
    hide Detect;
    if 2 + |RrqBody(name, mode)| <= RECEIVE_SIZE {
      forall beyond | |beyond| == BEYOND_SIZE
        ensures Detect([0, 1] + RrqBody(name, mode), beyond) == RRQ(name, mode)
      {
        RequestDetected(name, mode, beyond);
      }
    } else {
      CutRequestMisread(name, mode, Repeat(1, BEYOND_SIZE));
    }
  }
}
