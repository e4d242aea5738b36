/**
 * tftp.cpp, class Session: one server session. The functions give the session as a
 * value and its handlers as transitions; class Session performs them in place.
 */
module TftpSession {
  import opened Bytes
  import opened TftpPacket

  const TRIES_LIMIT: nat := 12

  datatype Task = Idling | Uploading

  datatype File = Closed | Open(bytes: seq<byte>, pos: nat)

  /** `wire` logs the datagrams handed to the socket, oldest first. */
  datatype State = State(
    alive: bool,
    task: Task,
    mode: Mode,
    file: File,
    output: Option<seq<byte>>,
    input: Option<Packet>,
    tries: nat,
    timeout: bool,
    wire: seq<seq<byte>>)

  /** Published names to paths, and paths to file contents. */
  type Directory = map<seq<byte>, seq<byte>>
  type Disk = map<seq<byte>, seq<byte>>

  const FRESH := State(false, Idling, Unknown, Closed, None, None, 0, false, [])

  ghost predicate InRange(s: State) {
    (s.file.Open? ==> s.file.pos <= |s.file.bytes|) && s.tries < TRIES_LIMIT
  }

  function NextId(id: uint16): uint16 {
    (id + 1) % 0x1_0000
  }

  /** ProcessTask gives up when there is no open file or no byte left in it. */
  predicate CanSend(s: State) {
    s.task == Uploading && s.file.Open? && s.file.pos < |s.file.bytes|
  }

  function BlockAt(bytes: seq<byte>, pos: nat): seq<byte>
    requires pos <= |bytes|
  {
    bytes[pos..pos + Min(|bytes| - pos, BLOCK_SIZE)]
  }

  /** Session::Send: a datagram goes out, and a packet still waiting to be processed is dropped. */
  function Transmitted(s: State, pkt: seq<byte>): State {
    s.(input := None, wire := s.wire + [pkt])
  }

  function SendBlock(s: State, id: uint16): (t: State)
    requires InRange(s)
    ensures InRange(t)
  {
    if !CanSend(s) then s
    else
      var block := BlockAt(s.file.bytes, s.file.pos);
      var pkt := DataPacket(id, block);
      Transmitted(s.(file := s.file.(pos := s.file.pos + |block|), output := Some(pkt)), pkt)
  }

  function Opened(s: State, works: bool): State {
    s.(alive := works)
  }

  function Close(s: State): State {
    s.(alive := false, file := Closed)
  }

  function OpenTask(s: State, mode: Mode, path: seq<byte>, disk: Disk): (t: State)
    ensures InRange(s) ==> InRange(t)
  {
    s.(task := Uploading,
       mode := mode,
       file := if path in disk then Open(disk[path], 0) else s.file)
  }

  function Received(s: State, datagram: seq<byte>, beyond: seq<byte>): State
    requires |beyond| == BEYOND_SIZE
  {
    var p := Detect(datagram, beyond);
    s.(input := if p.Unrecognised? then None else Some(p))
  }

  /** A request for a published file; one that comes while a task is running is ignored. */
  function Requested(s: State, mode: Mode, path: seq<byte>, disk: Disk): (t: State)
    requires InRange(s)
    ensures InRange(t) && s.wire <= t.wire
    ensures t.tries == s.tries && t.timeout == s.timeout && t.alive == s.alive
    ensures (s.output.Some? ==> t.output.Some?) && (s.input.None? ==> t.input.None?)
  {
    if s.task == Idling then SendBlock(OpenTask(s, mode, path, disk), 1) else s
  }

  function Processed(s: State, dir: Directory, disk: Disk): (t: State)
    requires InRange(s)
    ensures InRange(t) && s.wire <= t.wire
    ensures t.tries == s.tries && t.timeout == s.timeout && (t.alive ==> s.alive)
    ensures (s.output.Some? ==> t.output.Some?) && t.input.None?
  {
    if s.input.None? then s
    else
      var t := s.(input := None);
      match s.input.value
      case RRQ(name, mode) =>
        if name in dir then Requested(t, mode, dir[name], disk) else Close(t)
      case Ack(id) => if CanSend(t) then SendBlock(t, NextId(id)) else Close(t)
      case _ => Close(t)
  }

  /** HandlerTimer once the deadline has really passed. */
  function Expired(s: State): State {
    var tries := if s.output.Some? then s.tries + 1 else TRIES_LIMIT;
    var t := if s.output.Some? then Transmitted(s, s.output.value) else s;
    if tries >= TRIES_LIMIT then t.(tries := 0, timeout := true) else t.(tries := tries)
  }

  /** What is left of the file to be sent, by the fields alone. */
  predicate HasMore(s: State) {
    s.task == Uploading && s.file.Open? && s.file.pos != |s.file.bytes|
  }

  /**
   * For every datagram, memory, state, directory and disk: what closes a session is a DATA
   * or ERROR packet, a request for a name that is not published, and an ACK when there is
   * nothing more to send. Closing also closes the file and sends nothing.
   */
  lemma DatagramClosesIff(s: State, datagram: seq<byte>, beyond: seq<byte>, dir: Directory, disk: Disk)
    requires InRange(s) && s.alive && |beyond| == BEYOND_SIZE
    ensures
      var p, t := Detect(datagram, beyond), Processed(Received(s, datagram, beyond), dir, disk);
      && (!t.alive <==>
            || Opcode(datagram) == 3 || Opcode(datagram) == 5
            || (Opcode(datagram) == 1 && p.filename !in dir)
            || (Opcode(datagram) == 4 && !HasMore(s)))
      && (!t.alive ==> t.file == Closed && t.wire == s.wire)
  {
    hide Detect, DataPacket;
    KindIff(datagram, beyond);
  }

  /** And what makes it send is the first request for a file with contents, and an ACK otherwise. */
  lemma DatagramSendsIff(s: State, datagram: seq<byte>, beyond: seq<byte>, dir: Directory, disk: Disk)
    requires InRange(s) && |beyond| == BEYOND_SIZE && (s.task == Idling ==> s.file == Closed)
    ensures
      var p, t := Detect(datagram, beyond), Processed(Received(s, datagram, beyond), dir, disk);
      && (t.wire != s.wire <==>
            || (Opcode(datagram) == 4 && HasMore(s))
            || (Opcode(datagram) == 1 && s.task == Idling && p.filename in dir
                && dir[p.filename] in disk && disk[dir[p.filename]] != []))
      && (t.wire != s.wire ==> t.output.Some? && t.wire == s.wire + [t.output.value])
  {
    hide Detect, DataPacket;
    KindIff(datagram, beyond);
  }

  class Session {
    var alive: bool
    var task: Task
    var mode: Mode
    var file: File
    var output: Option<seq<byte>>
    var input: Option<Packet>
    var tries: nat
    var timeout: bool
    var wire: seq<seq<byte>>

    ghost function Abs(): State
      reads this
    {
      State(alive, task, mode, file, output, input, tries, timeout, wire)
    }

    ghost predicate Valid()
      reads this
    {
      InRange(Abs())
    }

    constructor ()
      ensures Valid() && Abs() == FRESH
    {
      alive, task, mode, file := false, Idling, Unknown, Closed;
      output, input, tries, timeout, wire := None, None, 0, false, [];
    }

    /** `works` says whether the socket could be opened; one that is open is closed first. */
    method OpenSession(works: bool) returns (ok: bool)
      requires Valid()
      modifies this`alive
      ensures Valid() && ok == works && Abs() == Opened(old(Abs()), works)
      ensures alive == works
    {
      if alive {
        alive := false;
      }
      alive := works;
      ok := works;
    }

    method Transmit(pkt: seq<byte>)
      modifies this`input, this`wire
      ensures Abs() == Transmitted(old(Abs()), pkt)
      ensures input == None && wire == old(wire) + [pkt]
    {
      input := None;
      wire := wire + [pkt];
    }

    method CloseSession()
      requires Valid()
      modifies this`alive, this`file
      ensures Valid() && Abs() == Close(old(Abs()))
      ensures !alive && file == Closed
    {
      alive := false;
      file := Closed;
    }

    method PushPacket(pkt: Buffer)
      requires Valid() && pkt.Valid() && pkt.size > 0
      modifies this`input, this`output, this`wire
      ensures Valid()
      ensures Abs() == Transmitted(old(Abs()).(output := Some(pkt.Contents())), pkt.Contents())
      ensures output == Some(pkt.Contents()) && wire == old(wire) + [pkt.Contents()] && input == None
    {
      output := Some(pkt.data[..pkt.size]);
      Transmit(pkt.data[..pkt.size]);
    }

    method ProcessTask(id: uint16) returns (ok: bool)
      requires Valid()
      modifies this`file, this`input, this`output, this`wire
      ensures Valid()
      ensures ok <==> CanSend(old(Abs()))
      ensures Abs() == SendBlock(old(Abs()), id)
      ensures !ok ==> Abs() == old(Abs())
    {
      if task != Uploading || file.Closed? {
        return false;
      }
      var tail := |file.bytes| - file.pos;
      if tail == 0 {
        return false;
      }
      var count := if tail > BLOCK_SIZE then BLOCK_SIZE else tail;
      var block := file.bytes[file.pos..file.pos + count];
      file := file.(pos := file.pos + count);
      var pkt := NewData(id, block);
      PushPacket(pkt);
      ok := true;
    }

    method HandlerRead(datagram: seq<byte>, beyond: seq<byte>)
      requires Valid() && |beyond| == BEYOND_SIZE
      modifies this`input
      ensures Valid() && Abs() == Received(old(Abs()), datagram, beyond)
    {
      var p := DetectInputPkt(datagram, beyond);
      input := if p.Unrecognised? then None else Some(p);
    }

    method ProcessRequest(m: Mode, path: seq<byte>, disk: Disk)
      requires Valid()
      modifies this
      ensures Valid() && Abs() == Requested(old(Abs()), m, path, disk)
      ensures old(task) == Idling ==> task == Uploading && mode == m
      ensures old(task) != Idling ==> Abs() == old(Abs())
    {
      hide SendBlock;
      if task == Idling {
        task := Uploading;
        mode := m;
        if path in disk {
          file := Open(disk[path], 0);
        }
        var started := ProcessTask(1);
      }
    }

    method Process(dir: Directory, disk: Disk)
      requires Valid()
      modifies this
      ensures Valid() && Abs() == Processed(old(Abs()), dir, disk)
      ensures input == None
    {
      hide SendBlock, Requested;
      var popped := input;
      input := None;
      if popped.None? {
        return;
      }
      match popped.value {
        case RRQ(name, m) =>
          if name in dir {
            ProcessRequest(m, dir[name], disk);
            return;
          }
        case Ack(id) =>
          if task == Uploading {
            var more := ProcessTask(NextId(id));
            if more {
              return;
            }
          }
        case _ =>
      }
      CloseSession();
    }

    method SetupTimer()
      requires Valid()
      modifies this`timeout
      ensures Valid() && Abs() == old(Abs()).(timeout := false)
    {
      timeout := false;
    }

    method HandlerTimer()
      requires Valid()
      modifies this`input, this`tries, this`timeout, this`wire
      ensures Valid() && Abs() == Expired(old(Abs()))
      ensures timeout == (old(timeout) || output.None? || old(tries) + 1 >= 12)
      ensures wire == old(wire) + if output.None? then [] else [output.value]
      ensures tries == if output.None? || old(tries) + 1 >= 12 then 0 else old(tries) + 1
    {
      tries := tries + 1;
      if output.Some? {
        Transmit(output.value);
      } else {
        tries := TRIES_LIMIT;
      }
      if tries >= TRIES_LIMIT {
        timeout := true;
        tries := 0;
      }
    }
  }
}
