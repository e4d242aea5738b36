/**
 * ymodem.cpp, classes Packet, Sequence and YModem::SendFile: the framing of a file, what
 * one session puts on the serial line for any replies, and what a receiver gets out of it.
 */
module Ymodem {
  import opened Bytes
  import opened Gf2
  import opened Crc16

  const FRAME_SIZE: nat := 1024
  const STX: byte := 0x02
  const EOT: byte := 0x04
  const ACK: byte := 0x06
  const REQUEST: byte := 67
  const WAIT_TRIES: nat := 255

  // ----- frames -----

  function CrcBytes(payload: seq<byte>): (s: seq<byte>)
    ensures |s| == 2
  {
    WireBytes(Swap(Register(Zero(16), payload)))
  }

  function Frame(num: byte, payload: seq<byte>): seq<byte> {
    [STX, num, 255 - num] + payload + CrcBytes(payload)
  }

  /** A file of no bytes still takes one frame. */
  function FrameCount(file: seq<byte>): (n: nat)
    ensures n > 0
  {
    if file == [] then 1 else CeilDiv(|file|, FRAME_SIZE)
  }

  function Padded(file: seq<byte>): (s: seq<byte>)
    ensures |s| == FRAME_SIZE * FrameCount(file)
    ensures file <= s && s[|file|..] == Zeros(|s| - |file|)
  {
    file + Zeros(FRAME_SIZE * FrameCount(file) - |file|)
  }

  function Payload(file: seq<byte>, i: nat): (s: seq<byte>)
    requires i < FrameCount(file)
    ensures |s| == FRAME_SIZE
  {
    Padded(file)[FRAME_SIZE * i..FRAME_SIZE * (i + 1)]
  }

  function Number(i: nat): byte {
    i % 256
  }

  function DataFrame(file: seq<byte>, i: nat): seq<byte>
    requires i < FrameCount(file)
  {
    Frame(Number(i + 1), Payload(file, i))
  }

  /** The first k data frames; number 0 went to the header. */
  function DataFrames(file: seq<byte>, k: nat): seq<seq<byte>>
    requires k <= FrameCount(file)
  {
    seq(k, i requires 0 <= i < k => DataFrame(file, i))
  }

  // ----- the line -----

  /** The packets sent are logged in order; the i-th byte read is `replies(i)`. */
  class Port {
    const replies: nat -> byte
    var wire: seq<seq<byte>>
    var taken: nat

    constructor (answers: nat -> byte)
      ensures replies == answers && wire == [] && taken == 0
    {
      replies, wire, taken := answers, [], 0;
    }

    method IsResponse(wanted: byte) returns (ok: bool)
      modifies this`taken
      ensures taken == old(taken) + 1
      ensures ok <==> replies(old(taken)) == wanted
    {
      ok := replies(taken) == wanted;
      taken := taken + 1;
    }

    /** Reads until the wanted byte has come or the tries are used up. */
    method WaitForResponse(wanted: byte) returns (ok: bool)
      modifies this`taken
      ensures old(taken) < taken <= old(taken) + WAIT_TRIES
      ensures forall i :: old(taken) <= i < taken - 1 ==> replies(i) != wanted
      ensures ok <==> replies(taken - 1) == wanted
      ensures !ok ==> taken == old(taken) + WAIT_TRIES
    {
      var tries := 0;
      ok := false;
      while tries < WAIT_TRIES
        invariant tries <= WAIT_TRIES && taken == old(taken) + tries
        invariant forall i :: old(taken) <= i < taken ==> replies(i) != wanted
      {
        ok := IsResponse(wanted);
        if ok {
          return;
        }
        tries := tries + 1;
      }
    }
  }

  datatype Packet = Signal(kind: byte) | Block(payload: seq<byte>)

  function PacketBytes(p: Packet, num: byte): seq<byte> {
    match p
    case Signal(kind) => [kind]
    case Block(payload) => Frame(num, payload)
  }

  class Sequence {
    const port: Port
    const crc: Crc
    var pktNum: byte

    ghost predicate Valid()
      reads crc.table
    {
      crc.Valid() && crc.iniValue == Zero(16)
    }

    constructor (p: Port)
      ensures Valid() && port == p && pktNum == 0 && fresh(crc.table)
    {
      port, pktNum := p, 0;
      crc := new Crc(Zero(16));
    }

    method Send(p: Packet)
      requires Valid()
      modifies this`pktNum, port`wire
      ensures port.wire == old(port.wire) + [PacketBytes(p, old(pktNum))]
      ensures pktNum == (old(pktNum) + 1) % 256
    {
      match p {
        case Signal(kind) =>
          port.wire := port.wire + [[kind]];
        case Block(payload) =>
          var value := crc.Compute(payload);
          var sent := [STX];
          sent := sent + [pktNum];
          sent := sent + [255 - pktNum];
          sent := sent + payload;
          sent := sent + WireBytes(value);
          assert sent == Frame(pktNum, payload);
          port.wire := port.wire + [sent];
      }
      if pktNum == 255 {
        pktNum := 0;
      } else {
        pktNum := pktNum + 1;
      }
    }

    method Reset()
      modifies this`pktNum
      ensures pktNum == 0
    {
      pktNum := 0;
    }
  }

  // ----- the data loop -----

  /** How many of `left` frames go out when the loop ends at the first bad reply from `from` on. */
  function SentFrom(replies: nat -> byte, from: nat, left: nat): (k: nat)
    requires left > 0
    ensures 0 < k <= left
    decreases left
  {
    if replies(from) != ACK || left == 1 then 1
    else 1 + SentFrom(replies, from + 1, left - 1)
  }

  function Sent(file: seq<byte>, replies: nat -> byte, from: nat): (k: nat)
    ensures 0 < k <= FrameCount(file)
  {
    SentFrom(replies, from, FrameCount(file))
  }

  /** Fills the frame buffer from the file and clears what the file does not fill. */
  method ReadFrame(file: seq<byte>, offset: nat, ghost i: nat) returns (frame: seq<byte>, wasRead: nat)
    requires i < FrameCount(file) && offset == FRAME_SIZE * i <= |file|
    ensures frame == Payload(file, i)
    ensures wasRead == Min(|file| - offset, FRAME_SIZE)
  {
    wasRead := Min(|file| - offset, FRAME_SIZE);
    frame := file[offset..offset + wasRead];
    if wasRead != FRAME_SIZE {
      frame := frame + Zeros(FRAME_SIZE - wasRead);
    }
  }

  /** One round of the loop: data frame i goes out and its answer comes in. */
  method SendBlock(s: Sequence, file: seq<byte>, i: nat) returns (wasRead: nat, acked: bool)
    requires s.Valid() && i < FrameCount(file) && FRAME_SIZE * i <= |file|
    requires s.pktNum == Number(i + 1)
    modifies s`pktNum, s.port`wire, s.port`taken
    ensures s.port.wire == old(s.port.wire) + [DataFrame(file, i)]
    ensures s.port.taken == old(s.port.taken) + 1
    ensures s.pktNum == Number(i + 2)
    ensures wasRead == Min(|file| - FRAME_SIZE * i, FRAME_SIZE)
    ensures acked <==> s.port.replies(old(s.port.taken)) == ACK
  {
    hide CrcBytes, Frame, Payload;
    var frame: seq<byte>;
    frame, wasRead := ReadFrame(file, FRAME_SIZE * i, i);
    s.Send(Block(frame));
    acked := s.port.IsResponse(ACK);
  }

  method SendData(s: Sequence, file: seq<byte>) returns (crashed: bool)
    requires s.Valid() && s.pktNum == 1
    modifies s`pktNum, s.port`wire, s.port`taken
    ensures
      var k := Sent(file, s.port.replies, old(s.port.taken));
      && s.port.wire == old(s.port.wire) + DataFrames(file, k)
      && s.port.taken == old(s.port.taken) + k
    ensures crashed <==> file == [] && s.port.replies(old(s.port.taken)) == ACK
  {
    hide CrcBytes;
    var wasSend, i := 0, 0;
    ghost var base, total := s.port.taken, FrameCount(file);
    crashed := false;
    while true
      invariant i < total && wasSend == FRAME_SIZE * i <= |file|
      invariant s.pktNum == Number(i + 1)
      invariant s.port.taken == base + i
      invariant s.port.wire == old(s.port.wire) + DataFrames(file, i)
      invariant Sent(file, s.port.replies, base) == i + SentFrom(s.port.replies, base + i, total - i)
      invariant i > 0 ==> file != []
      decreases total - i
    {
      assert DataFrames(file, i + 1) == DataFrames(file, i) + [DataFrame(file, i)];
      var wasRead, acked := SendBlock(s, file, i);
      wasSend := wasSend + wasRead;
      LastFrameIff(file, i);
      if !acked {
        break;
      }
      if |file| == 0 {
        // the percentage divides by the file size
        crashed := true;
        break;
      }
      if wasSend >= |file| {
        break;
      }
      i := i + 1;
    }
  }

  lemma LastFrameIff(file: seq<byte>, i: nat)
    requires i < FrameCount(file) && FRAME_SIZE * i <= |file|
    ensures FRAME_SIZE * i + Min(|file| - FRAME_SIZE * i, FRAME_SIZE) >= |file| <==> i + 1 == FrameCount(file)
  {
  }

  // ----- the session -----

  datatype Outcome = Refused | Crashed | Completed

  /** Everything sent once the line is quiet; `from` is the first reply still to be read. */
  function Transcript(file: seq<byte>, header: seq<byte>, replies: nat -> byte, from: nat): seq<seq<byte>> {
    [Frame(0, header)]
    + if replies(from + 1) != REQUEST then []
      else DataFrames(file, Sent(file, replies, from + 2))
           + if Crashes(file, replies, from) then [] else [[EOT], [EOT], Frame(0, Zeros(FRAME_SIZE))]
  }

  predicate Crashes(file: seq<byte>, replies: nat -> byte, from: nat) {
    file == [] && replies(from + 2) == ACK
  }

  /**
   * SendFile on an open line and file. `header` is whatever SendInitialPkt has put in its
   * frame. The replies to the header and to the closing packets are read and dropped.
   */
  method SendFile(file: seq<byte>, header: seq<byte>, port: Port) returns (outcome: Outcome, ghost from: nat)
    modifies port`wire, port`taken
    ensures old(port.taken) < from <= old(port.taken) + 255
    ensures forall i :: old(port.taken) <= i < from - 1 ==> port.replies(i) != 67
    ensures port.replies(from - 1) == 67 || from == old(port.taken) + 255
    ensures port.wire == old(port.wire) + Transcript(file, header, port.replies, from)
    ensures port.taken == from +
      match outcome
      case Refused => 2
      case Crashed => 3
      case Completed => 2 + Sent(file, port.replies, from + 2) + 4
    ensures outcome == Refused <==> port.replies(from + 1) != 67
    ensures outcome == Crashed <==> outcome != Refused && file == [] && port.replies(from + 2) == 6
    ensures
      var end := HearAll(Opening, port.wire[|old(port.wire)|..]);
      file != [] && |header| == 1024 ==>
        && (end.Finished? <==> port.replies(from + 1) == 67)
        && (end.Finished? && file <= end.got <==>
              && port.replies(from + 1) == 67
              && forall j :: from + 2 <= j < from + 2 + (|file| + 1023) / 1024 - 1 ==> port.replies(j) == 6)
  {
    hide CrcBytes, DataFrames, Sent, Frame, Transcript, HearAll;
    var s, ok;
    s, ok, from := OpenTransfer(header, port);
    TranscriptIs(file, header, port.replies, from);
    if file != [] && |header| == 1024 {
      TranscriptHeard(file, header, port.replies, from);
    }
    if !ok {
      return Refused, from;
    }
    var crashed := SendData(s, file);
    if crashed {
      return Crashed, from;
    }
    SendClosing(s);
    outcome := Completed;
  }

  /** Waits for a request, sends the header and asks whether the receiver goes on. */
  method OpenTransfer(header: seq<byte>, port: Port) returns (s: Sequence, ok: bool, ghost from: nat)
    modifies port`wire, port`taken
    ensures old(port.taken) < from <= old(port.taken) + 255
    ensures forall i :: old(port.taken) <= i < from - 1 ==> port.replies(i) != 67
    ensures port.replies(from - 1) == 67 || from == old(port.taken) + 255
    ensures port.wire == old(port.wire) + [Frame(0, header)] && port.taken == from + 2
    ensures ok <==> port.replies(from + 1) == 67
    ensures fresh(s) && s.Valid() && s.port == port && s.pktNum == 1 && fresh(s.crc.table)
  {
    hide Frame;
    var asked := port.WaitForResponse(REQUEST);
    from := port.taken;
    s := new Sequence(port);
    s.Send(Block(header));
    ok := port.IsResponse(ACK);
    ok := port.IsResponse(REQUEST);
  }

  lemma TranscriptIs(file: seq<byte>, header: seq<byte>, replies: nat -> byte, from: nat)
    ensures
      var data := DataFrames(file, Sent(file, replies, from + 2));
      Transcript(file, header, replies, from) ==
      if replies(from + 1) != REQUEST then [Frame(0, header)]
      else if Crashes(file, replies, from) then [Frame(0, header)] + data
      else [Frame(0, header)] + data + [[EOT], [EOT], Frame(0, Zeros(FRAME_SIZE))]
  {
    hide DataFrames, Sent, Frame;
  }

  method SendClosing(s: Sequence)
    requires s.Valid()
    modifies s`pktNum, s.port`wire, s.port`taken
    ensures s.port.wire == old(s.port.wire) + [[EOT], [EOT], Frame(0, Zeros(FRAME_SIZE))]
    ensures s.port.taken == old(s.port.taken) + 4
  {
    s.Send(Signal(EOT));
    var ok := s.port.IsResponse(ACK);
    s.Send(Signal(EOT));
    ok := s.port.IsResponse(ACK);
    ok := s.port.IsResponse(REQUEST);
    s.Reset();
    s.Send(Block(Zeros(FRAME_SIZE)));
    ok := s.port.IsResponse(ACK);
  }

  // ----- the receiver -----

  /** The payload of a frame that arrives under the right number with a good check. */
  function Unframe(frame: seq<byte>, num: byte): (p: Option<seq<byte>>)
    ensures p.Some? ==> |p.value| == 1024
  {
    if |frame| != 1029 then None
    else if frame[0] != 0x02 || frame[1] != num || frame[2] != 255 - num then None
    else if Register(Zero(16), frame[3..]) != Zero(16) then None
    else Some(frame[3..1027])
  }

  /** A receiver of one file: header, data, end of transmission twice, and an empty header. */
  datatype Receiver =
    | Opening
    | Collecting(got: seq<byte>, next: nat)
    | Ending(got: seq<byte>)
    | Ended(got: seq<byte>)
    | Finished(got: seq<byte>)
    | Broken

  function Hear(r: Receiver, packet: seq<byte>): Receiver {
    match r
    case Opening => if Unframe(packet, 0).Some? then Collecting([], 1) else Broken
    case Collecting(got, next) =>
      var payload := Unframe(packet, next % 256);
      if packet == [0x04] then Ending(got)
      else if payload.Some? then Collecting(got + payload.value, next + 1)
      else Broken
    case Ending(got) => if packet == [0x04] then Ended(got) else Broken
    case Ended(got) =>
      var payload := Unframe(packet, 0);
      if payload.Some? && payload.value[0] == 0 then Finished(got) else Broken
    case _ => Broken
  }

  function HearAll(r: Receiver, packets: seq<seq<byte>>): Receiver
    decreases |packets|
  {
    if packets == [] then r else HearAll(Hear(r, packets[0]), packets[1..])
  }

  lemma {:induction false} HearPlus(r: Receiver, a: seq<seq<byte>>, b: seq<seq<byte>>)
    ensures HearAll(r, a + b) == HearAll(HearAll(r, a), b)
    decreases |a|
  {
    hide Hear;
    if a == [] {
      assert a + b == b;
    } else {
      HearPlus(Hear(r, a[0]), a[1..], b);
      assert (a + b)[1..] == a[1..] + b;
    }
  }

  lemma HearOne(r: Receiver, packet: seq<byte>)
    ensures HearAll(r, [packet]) == Hear(r, packet)
  {
    hide Hear;
    assert [packet][1..] == [];
  }

  lemma FrameArrives(num: byte, payload: seq<byte>)
    requires |payload| == 1024
    ensures Unframe(Frame(num, payload), num) == Some(payload)
  {
    hide Register;
    var crc := CrcBytes(payload);
    var frame := Frame(num, payload);
    assert frame[3..] == payload + [crc[0], crc[1]];
    assert [crc[0], crc[1]] == crc;
    CheckIsZeroIff(Zero(16), payload, crc[0], crc[1]);
    SwapZeroIff(Register(Zero(16), frame[3..]));
    assert frame[3..FRAME_SIZE + 3] == payload;
  }

  /** The first k data frames carry the first k kilobytes of the padded file. */
  lemma {:induction false} FramesArrive(file: seq<byte>, k: nat)
    requires k <= FrameCount(file)
    ensures HearAll(Collecting([], 1), DataFrames(file, k)) == Collecting(Padded(file)[..1024 * k], k + 1)
  {
    if k > 0 {
      FramesArrive(file, k - 1);
      NextFrameArrives(file, k - 1);
    } else {
      assert DataFrames(file, k) == [];
    }
  }

  lemma {:induction false} NextFrameArrives(file: seq<byte>, k: nat)
    requires k < FrameCount(file)
    requires HearAll(Collecting([], 1), DataFrames(file, k)) == Collecting(Padded(file)[..1024 * k], k + 1)
    ensures HearAll(Collecting([], 1), DataFrames(file, k + 1)) == Collecting(Padded(file)[..1024 * (k + 1)], k + 2)
  {
    hide HearAll, Unframe, Frame, Padded;
    assert DataFrames(file, k + 1) == DataFrames(file, k) + [DataFrame(file, k)];
    HearPlus(Collecting([], 1), DataFrames(file, k), [DataFrame(file, k)]);
    HearOne(Collecting(Padded(file)[..1024 * k], k + 1), DataFrame(file, k));
    FrameArrives(Number(k + 1), Payload(file, k));
    LongerThanEot(Number(k + 1), Payload(file, k));
    SliceSnoc(Padded(file), 1024 * k, 1024 * (k + 1));
  }

  lemma LongerThanEot(num: byte, payload: seq<byte>)
    ensures Frame(num, payload) != [EOT]
  {
    assert |Frame(num, payload)| >= 3;
  }

  lemma SliceSnoc(s: seq<byte>, i: nat, j: nat)
    requires i <= j <= |s|
    ensures s[..j] == s[..i] + s[i..j]
  {
  }

  lemma ClosingHeard(got: seq<byte>, next: nat)
    ensures HearAll(Collecting(got, next), [[EOT], [EOT], Frame(0, Zeros(FRAME_SIZE))]) == Finished(got)
  {
    hide Unframe, Frame;
    var last := Frame(0, Zeros(FRAME_SIZE));
    FrameArrives(0, Zeros(FRAME_SIZE));
    var packets := [[EOT], [EOT], last];
    assert packets[1..] == [[EOT], last] && packets[1..][1..] == [last];
    HearOne(Ended(got), last);
  }

  /** What the receiver makes of a session: the file so far, finished unless it was refused. */
  lemma TranscriptHeard(file: seq<byte>, header: seq<byte>, replies: nat -> byte, from: nat)
    requires file != [] && |header| == 1024
    ensures
      var end := HearAll(Opening, Transcript(file, header, replies, from));
      && (end.Finished? <==> replies(from + 1) == 67)
      && (end.Finished? && file <= end.got <==>
            && replies(from + 1) == 67
            && forall j :: from + 2 <= j < from + 2 + (|file| + 1023) / 1024 - 1 ==> replies(j) == 6)
  {
    hide Unframe, Frame, DataFrames, Sent, HearAll, Transcript, Padded;
    var opening, k := [Frame(0, header)], Sent(file, replies, from + 2);
    var data, closing := DataFrames(file, k), [[EOT], [EOT], Frame(0, Zeros(FRAME_SIZE))];
    TranscriptIs(file, header, replies, from);
    FrameArrives(0, header);
    HearOne(Opening, Frame(0, header));
    if replies(from + 1) == REQUEST {
      HearPlus(Opening, opening + data, closing);
      HearPlus(Opening, opening, data);
      FramesArrive(file, k);
      ClosingHeard(Padded(file)[..1024 * k], k + 1);
      DeliveredIff(file, replies, from + 2);
    }
  }

  // ----- how much of the file arrives -----

  lemma {:induction false} SentFromIff(replies: nat -> byte, from: nat, left: nat, k: nat)
    requires left > 0
    ensures SentFrom(replies, from, left) == k <==>
            && 0 < k <= left
            && (forall j :: from <= j < from + k - 1 ==> replies(j) == 6)
            && (k < left ==> replies(from + k - 1) != 6)
    decreases left
  {
    if replies(from) == ACK && left > 1 && k > 1 {
      SentFromIff(replies, from + 1, left - 1, k - 1);
    }
  }

  /**
   * The loop stops after the first data frame that is not acknowledged. So all of the
   * file has been sent exactly when every frame but the last was acknowledged; the last
   * answer changes nothing, and neither does SendFile's result depend on any of them.
   */
  lemma DeliveredIff(file: seq<byte>, replies: nat -> byte, base: nat)
    requires file != []
    ensures
      var total := (|file| + 1023) / 1024;
      var end := HearAll(Collecting([], 1), DataFrames(file, Sent(file, replies, base)));
      && end.Collecting? && end.got == Padded(file)[..1024 * Sent(file, replies, base)]
      && (file <= end.got <==> forall j :: base <= j < base + total - 1 ==> replies(j) == 6)
  {
    hide HearAll, DataFrames;
    var total, k := FrameCount(file), Sent(file, replies, base);
    FramesArrive(file, k);
    SentFromIff(replies, base, total, k);
    if k == total {
      assert Padded(file)[..1024 * k] == Padded(file);
    } else {
      assert 1024 * k < |file|;
      assert replies(base + k - 1) != ACK;
    }
  }
}
