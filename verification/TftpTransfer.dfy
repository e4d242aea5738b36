/**
 * A whole transfer: the server session of TftpSession, a channel that holds at most one
 * datagram and may lose it, and a client as RFC 1350 sections 2 and 6 describe it. The
 * server's timer fires only when nothing is in flight. A send can fail.
 */
module TftpTransfer {
  import opened Bytes
  import opened TftpPacket
  import opened TftpSession

  // ----- the file as numbered blocks -----

  function End(bytes: seq<byte>, k: nat): nat {
    Min(BLOCK_SIZE * k, |bytes|)
  }

  function Block(bytes: seq<byte>, k: nat): seq<byte>
    requires k > 0
  {
    bytes[End(bytes, k - 1)..End(bytes, k)]
  }

  function BlockCount(bytes: seq<byte>): nat {
    CeilDiv(|bytes|, BLOCK_SIZE)
  }

  function Label(k: nat): uint16 {
    k % 0x1_0000
  }

  /** The first k DATA packets of a correct transfer. */
  function IdealPackets(bytes: seq<byte>, k: nat): seq<seq<byte>> {
    seq(k, i requires 0 <= i < k => DataPacket(Label(i + 1), Block(bytes, i + 1)))
  }

  /** RFC 1350 section 6: a short block must close the transfer, and only the last may be short. */
  lemma ShortBlockIff(bytes: seq<byte>, k: nat)
    requires 0 < k <= BlockCount(bytes)
    ensures |Block(bytes, k)| < BLOCK_SIZE <==> k == BlockCount(bytes) && |bytes| % BLOCK_SIZE != 0
  {
    assert |bytes| == BLOCK_SIZE * (|bytes| / BLOCK_SIZE) + |bytes| % BLOCK_SIZE;
  }

  lemma EndCovers(bytes: seq<byte>, k: nat)
    ensures End(bytes, k) == |bytes| <==> BlockCount(bytes) <= k
    ensures k < BlockCount(bytes) ==> BlockAt(bytes, End(bytes, k)) == Block(bytes, k + 1)
    ensures k < BlockCount(bytes) ==> End(bytes, k) + |Block(bytes, k + 1)| == End(bytes, k + 1)
    ensures 0 < k ==> |Block(bytes, k)| <= BLOCK_SIZE
  {
  }

  // ----- the client -----

  datatype Client = Client(received: seq<byte>, blocks: nat, finished: bool)

  datatype Reaction = Reaction(client: Client, reply: Option<seq<byte>>)

  function React(c: Client, datagram: seq<byte>): Reaction {
    match ParseData(datagram)
    case NotData => Reaction(c, None)
    case DataView(id, payload) =>
      if !c.finished && id == Label(c.blocks + 1) then
        Reaction(Client(c.received + payload, c.blocks + 1, |payload| < BLOCK_SIZE), Some(AckPacket(id)))
      else if c.blocks > 0 && id == Label(c.blocks) then
        Reaction(c, Some(AckPacket(id)))
      else
        Reaction(c, None)
  }

  // ----- the three parts together -----

  datatype Channel = Empty | ToServer(datagram: seq<byte>) | ToClient(datagram: seq<byte>)

  /**
   * `pending` says whether the server has a receive and its timer under way; both come
   * only with a successful send. Two fields are history only: `produced` records each
   * DATA packet when it is first built, `aborted` that the server was sent DATA or ERROR.
   */
  datatype World = World(
    server: State,
    pending: bool,
    channel: Channel,
    client: Client,
    produced: seq<seq<byte>>,
    aborted: bool)

  /** `rest` is what follows the name in the request: the mode, in a well-formed one. */
  datatype Setup = Setup(name: seq<byte>, rest: seq<byte>, dir: Directory, disk: Disk)

  /** A stray datagram is anything but a request or an ACK, an ERROR packet for one. */
  datatype Step =
    | Request
    | Stray(datagram: seq<byte>)
    | ServerReceives(beyond: seq<byte>, sends: bool)
    | ClientReceives
    | Loss
    | Timer(sends: bool)

  /** The name is received together with its terminator. */
  ghost predicate WellFormed(u: Setup) {
    0 !in u.name && |NamedRequest(u.name, [])| <= RECEIVE_SIZE
  }

  function RequestPacket(u: Setup): seq<byte> {
    NamedRequest(u.name, u.rest)
  }

  function Published(u: Setup): Option<seq<byte>> {
    if u.name in u.dir && u.dir[u.name] in u.disk then Some(u.disk[u.dir[u.name]]) else None
  }

  const START := World(Opened(FRESH, true), true, Empty, Client([], 0, false), [], false)

  predicate IsStray(datagram: seq<byte>) {
    Opcode(datagram) != 1 && Opcode(datagram) != 4
  }

  predicate Aborts(datagram: seq<byte>) {
    Opcode(datagram) == 3 || Opcode(datagram) == 5
  }

  predicate Listening(w: World) {
    w.server.alive && !w.server.timeout && w.pending
  }

  predicate Enabled(w: World, step: Step) {
    match step
    case Request => w.channel.Empty? && w.client.blocks == 0
    case Stray(datagram) => w.channel.Empty? && IsStray(datagram)
    case ServerReceives(beyond, sends) => w.channel.ToServer? && |beyond| == BEYOND_SIZE
    case ClientReceives => w.channel.ToClient?
    case Loss => !w.channel.Empty?
    case Timer(sends) => w.channel.Empty? && Listening(w)
  }

  /** HandlerWrite: only a send that succeeds starts a receive, and SetupTimer with it. */
  function Launched(w: World, t: State, pkt: seq<byte>, sends: bool): World {
    if sends then w.(server := t.(timeout := false), pending := true, channel := ToClient(pkt))
    else w.(server := t, pending := false, channel := Empty)
  }

  function Served(w: World, u: Setup, s: State, sends: bool): (r: World)
    requires InRange(s)
    ensures InRange(r.server)
  {
    var t := Processed(s, u.dir, u.disk);
    if |t.wire| > |s.wire| then
      var pkt := t.wire[|t.wire| - 1];
      Launched(w.(produced := w.produced + [pkt]), t, pkt, sends)
    else
      w.(server := t, pending := false, channel := Empty)
  }

  function TimedOut(w: World, sends: bool): (r: World)
    requires InRange(w.server)
    ensures InRange(r.server)
  {
    var t := Expired(w.server);
    if |t.wire| > |w.server.wire| then Launched(w, t, t.wire[|t.wire| - 1], sends)
    else w.(server := t, pending := false)
  }

  function Apply(w: World, u: Setup, step: Step): (r: World)
    requires InRange(w.server)
    ensures InRange(r.server)
  {
    if !Enabled(w, step) then w
    else match step
      case Request => w.(channel := ToServer(RequestPacket(u)))
      case Stray(datagram) => w.(channel := ToServer(datagram))
      case Loss => w.(channel := Empty)
      case ServerReceives(beyond, sends) =>
        if !Listening(w) then w.(channel := Empty)
        else
          var d := w.channel.datagram;
          Served(w, u, Received(w.server, d, beyond), sends).(aborted := w.aborted || Aborts(d))
      case ClientReceives =>
        var r := React(w.client, w.channel.datagram);
        w.(client := r.client, channel := if r.reply.Some? then ToServer(r.reply.value) else Empty)
      case Timer(sends) => TimedOut(w, sends)
  }

  // ----- the invariant -----

  ghost predicate Waiting(u: Setup, w: World) {
    var s := w.server;
    && w.produced == [] && s.output.None? && w.client == START.client
    && (w.channel.Empty? || w.channel == ToServer(RequestPacket(u)) ||
        (w.channel.ToServer? && IsStray(w.channel.datagram)))
    && (s.task == Idling ==> s.file.Closed?)
    && (s.task == Uploading ==> Published(u).None? || Published(u).value == [])
    && (s.file.Open? ==> Published(u) == Some([]) && s.file == Open([], 0))
    && (!s.alive ==> w.aborted || u.name !in u.dir)
  }

  ghost predicate InFlight(u: Setup, w: World) {
    match w.channel
    case Empty => true
    case ToClient(p) => w.server.output == Some(p)
    case ToServer(p) =>
      || IsStray(p)
      || (p == RequestPacket(u) && w.client.blocks == 0)
      || (p == AckPacket(Label(|w.produced|)) && w.client.blocks == |w.produced|)
  }

  ghost predicate ClientHolds(c: Client, bytes: seq<byte>) {
    && c.received == bytes[..End(bytes, c.blocks)]
    && (c.finished <==> c.blocks > 0 && |Block(bytes, c.blocks)| < BLOCK_SIZE)
  }

  ghost predicate Sending(u: Setup, w: World, bytes: seq<byte>) {
    var s, k := w.server, |w.produced|;
    && Published(u) == Some(bytes)
    && s.task == Uploading
    && 0 < k <= BlockCount(bytes)
    && w.produced == IdealPackets(bytes, k)
    && s.output == Some(DataPacket(Label(k), Block(bytes, k)))
    && (w.client.blocks == k || w.client.blocks == k - 1)
    && ClientHolds(w.client, bytes)
    && InFlight(u, w)
    && (s.alive ==> s.file == Open(bytes, End(bytes, k)))
    && (!s.alive ==> s.file == Closed && (w.aborted || w.client.blocks == k == BlockCount(bytes)))
  }

  ghost predicate Inv(u: Setup, w: World) {
    && InRange(w.server) && w.server.input.None? && (w.aborted ==> !w.server.alive)
    && if w.produced == [] then Waiting(u, w)
       else Published(u).Some? && Sending(u, w, Published(u).value)
  }

  /** Opening the task, or going on with it, produces exactly the next ideal packet. */
  lemma NextBlock(s: State, bytes: seq<byte>, k: nat)
    requires InRange(s) && s.task == Uploading && s.file == Open(bytes, End(bytes, k))
    ensures CanSend(s) <==> k < BlockCount(bytes)
    ensures
      var pkt := DataPacket(Label(k + 1), Block(bytes, k + 1));
      SendBlock(s, Label(k + 1)) ==
      if CanSend(s) then Transmitted(s.(file := Open(bytes, End(bytes, k + 1)), output := Some(pkt)), pkt) else s
  {
    EndCovers(bytes, k);
  }

  lemma IdealSnoc(bytes: seq<byte>, k: nat)
    ensures IdealPackets(bytes, k + 1) == IdealPackets(bytes, k) + [DataPacket(Label(k + 1), Block(bytes, k + 1))]
  {
  }

  lemma IdealFirst(bytes: seq<byte>)
    ensures IdealPackets(bytes, 0) == [] && End(bytes, 0) == 0 && (BlockCount(bytes) == 0 <==> bytes == [])
  {
  }

  /** The first request for a file that can be opened. */
  lemma KeepsFirstRequest(u: Setup, w: World, mode: Mode, sends: bool)
    requires Inv(u, w) && w.produced == [] && Published(u).Some?
    requires Listening(w) && w.server.task == Idling
    ensures Inv(u, Served(w, u, w.server.(input := Some(RRQ(u.name, mode))), sends))
    ensures !Served(w, u, w.server.(input := Some(RRQ(u.name, mode))), sends).aborted
  {
    hide SendBlock, CanSend, DataPacket, Block, IdealPackets, BlockCount;
    var bytes := Published(u).value;
    NextBlock(OpenTask(w.server, mode, u.dir[u.name], u.disk), bytes, 0);
    IdealSnoc(bytes, 0);
    IdealFirst(bytes);
    EndCovers(bytes, 0);
  }

  lemma KeepsRequest(u: Setup, w: World, beyond: seq<byte>, sends: bool)
    requires WellFormed(u) && Inv(u, w) && |beyond| == BEYOND_SIZE
    requires w.channel == ToServer(RequestPacket(u)) && Listening(w)
    ensures Inv(u, Apply(w, u, ServerReceives(beyond, sends)))
  {
    NameDetected(u.name, u.rest, beyond);
    var p := Detect(RequestPacket(u), beyond);
    assert Received(w.server, w.channel.datagram, beyond) == w.server.(input := Some(RRQ(u.name, p.mode)));
    hide Detect, Inv, SendBlock;
    if w.server.task == Idling && Published(u).Some? {
      KeepsFirstRequest(u, w, p.mode, sends);
    }
  }

  /** DATA and ERROR close the session, anything else is ignored. */
  lemma KeepsStray(u: Setup, w: World, beyond: seq<byte>, sends: bool)
    requires Inv(u, w) && |beyond| == BEYOND_SIZE && Listening(w)
    requires w.channel.ToServer? && IsStray(w.channel.datagram)
    ensures Inv(u, Apply(w, u, ServerReceives(beyond, sends)))
  {
    hide Detect, SendBlock, DataPacket, Block, IdealPackets, BlockCount;
    KindIff(w.channel.datagram, beyond);
    var t := Apply(w, u, ServerReceives(beyond, sends));
    if w.produced == [] {
      assert Waiting(u, t);
    } else {
      assert Sending(u, t, Published(u).value);
    }
  }

  lemma LabelSteps(k: nat)
    ensures NextId(Label(k)) == Label(k + 1) != Label(k)
  {
  }

  lemma AckOpcode(id: uint16)
    ensures Opcode(AckPacket(id)) == 4
  {
  }

  lemma KeepsAck(u: Setup, w: World, beyond: seq<byte>, sends: bool)
    requires WellFormed(u) && Inv(u, w) && |beyond| == BEYOND_SIZE && w.produced != []
    requires w.channel == ToServer(AckPacket(Label(|w.produced|))) && w.client.blocks == |w.produced|
    requires Listening(w)
    ensures Inv(u, Apply(w, u, ServerReceives(beyond, sends)))
  {
    hide SendBlock, CanSend, DataPacket, Block, IdealPackets, BlockCount, Detect, AckPacket, End;
    var k := |w.produced|;
    AckDetected(Label(k), beyond);
    AckOpcode(Label(k));
    LabelSteps(k);
    NextBlock(w.server.(input := None), Published(u).value, k);
    IdealSnoc(Published(u).value, k);
  }

  /** The client takes block k once, and answers it whether it is new or not. */
  lemma ClientTakes(c: Client, bytes: seq<byte>, k: nat, p: seq<byte>)
    requires 0 < k <= BlockCount(bytes) && ClientHolds(c, bytes)
    requires c.blocks == k || c.blocks == k - 1
    requires p == DataPacket(Label(k), Block(bytes, k))
    ensures React(c, p).client.blocks == k && ClientHolds(React(c, p).client, bytes)
    ensures React(c, p).reply == Some(AckPacket(Label(k)))
  {
    EndCovers(bytes, k);
    DataRoundTrip(Label(k), Block(bytes, k));
    LabelSteps(k);
    if c.blocks == k - 1 {
      if c.blocks > 0 {
        ShortBlockIff(bytes, c.blocks);
      }
      assert bytes[..End(bytes, k)] == bytes[..End(bytes, k - 1)] + Block(bytes, k);
    }
  }

  lemma KeepsData(u: Setup, w: World)
    requires WellFormed(u) && Inv(u, w) && w.channel.ToClient?
    ensures Inv(u, Apply(w, u, ClientReceives))
  {
    ClientTakes(w.client, Published(u).value, |w.produced|, w.channel.datagram);
  }

  lemma KeepsTimer(u: Setup, w: World, sends: bool)
    requires Inv(u, w) && Enabled(w, Timer(sends))
    ensures Inv(u, Apply(w, u, Timer(sends)))
  {
    hide DataPacket, Block, IdealPackets, ClientHolds;
  }

  lemma KeepsInv(u: Setup, w: World, step: Step)
    requires WellFormed(u) && Inv(u, w)
    ensures Inv(u, Apply(w, u, step))
  {
    hide Served, TimedOut, React, DataPacket, Block, IdealPackets, ClientHolds;
    if Enabled(w, step) {
      match step
      case Request =>
      case Stray(datagram) =>
      case Loss =>
      case Timer(sends) => KeepsTimer(u, w, sends);
      case ClientReceives => KeepsData(u, w);
      case ServerReceives(beyond, sends) =>
        if Listening(w) {
          if IsStray(w.channel.datagram) {
            KeepsStray(u, w, beyond, sends);
          } else if w.channel == ToServer(RequestPacket(u)) {
            KeepsRequest(u, w, beyond, sends);
          } else {
            KeepsAck(u, w, beyond, sends);
          }
        }
    }
  }

  // ----- whole runs -----

  /** Any sequence of steps is a run; a step that is not enabled changes nothing. */
  function Run(u: Setup, steps: seq<Step>): (w: World)
    ensures InRange(w.server)
  {
    if steps == [] then START
    else Apply(Run(u, steps[..|steps| - 1]), u, steps[|steps| - 1])
  }

  lemma {:induction false} Invariant(u: Setup, steps: seq<Step>)
    requires WellFormed(u)
    ensures Inv(u, Run(u, steps))
  {
    if steps != [] {
      var init := steps[..|steps| - 1];
      Invariant(u, init);
      KeepsInv(u, Run(u, init), steps[|steps| - 1]);
    }
  }

  lemma HoldsPrefix(u: Setup, w: World, bytes: seq<byte>)
    requires Inv(u, w) && Published(u) == Some(bytes)
    ensures
      var k := |w.produced|;
      && w.produced == IdealPackets(bytes, k)
      && k <= BlockCount(bytes)
      && (w.client.received == bytes[..End(bytes, k)] ||
          (k > 0 && w.client.received == bytes[..End(bytes, k - 1)]))
  {
    hide InFlight, DataPacket, Block;
    assert IdealPackets(bytes, 0) == [];
  }

  lemma BlockInFlight(u: Setup, w: World, bytes: seq<byte>)
    requires Inv(u, w) && Published(u) == Some(bytes) && w.channel.ToClient?
    ensures
      var k := |w.produced|;
      k > 0 && ParseData(w.channel.datagram) == DataView(Label(k), Block(bytes, k))
  {
    hide DataPacket, ParseData, IdealPackets, ClientHolds;
    var k := |w.produced|;
    EndCovers(bytes, k);
    DataRoundTrip(Label(k), Block(bytes, k));
    assert Block(bytes, k)[..Min(|Block(bytes, k)|, BLOCK_SIZE)] == Block(bytes, k);
  }

  /**
   * In every reachable state the client holds the first k-1 or k blocks of the file, k
   * being the number of packets the server has built, and a datagram on its way to the
   * client is block k under label k mod 65536.
   */
  lemma Safety(u: Setup, steps: seq<Step>)
    requires WellFormed(u) && Published(u).Some?
    ensures
      var w, bytes := Run(u, steps), Published(u).value;
      var k := |w.produced|;
      && w.produced == IdealPackets(bytes, k)
      && k <= BlockCount(bytes)
      && (w.client.received == bytes[..End(bytes, k)] ||
          (k > 0 && w.client.received == bytes[..End(bytes, k - 1)]))
      && (w.channel.ToClient? ==>
            k > 0 && ParseData(w.channel.datagram) == DataView(Label(k), Block(bytes, k)))
  {
    hide Run, Inv, Block, ParseData, IdealPackets, End;
    Invariant(u, steps);
    HoldsPrefix(u, Run(u, steps), Published(u).value);
    if Run(u, steps).channel.ToClient? {
      BlockInFlight(u, Run(u, steps), Published(u).value);
    }
  }

  /**
   * When the session of a published file closes, and the client has not itself broken it
   * off, the client holds exactly the file and exactly ceil(n/512) packets were built.
   * Whether the client also knows that it is done depends on the size of the file alone.
   */
  lemma ClosedMeansDelivered(u: Setup, steps: seq<Step>)
    requires WellFormed(u) && Published(u).Some? && !Run(u, steps).server.alive
    ensures
      var w, bytes := Run(u, steps), Published(u).value;
      !w.aborted ==>
        && w.client.received == bytes
        && w.produced == IdealPackets(bytes, (|bytes| + 511) / 512)
        && (w.client.finished <==> |bytes| % 512 != 0)
  {
    Invariant(u, steps);
    var w, bytes := Run(u, steps), Published(u).value;
    EndCovers(bytes, |w.produced|);
    if !w.aborted {
      ShortBlockIff(bytes, |w.produced|);
    }
  }

  /** All blocks have been built, and the ACK of the last has come. */
  ghost predicate LastAcked(u: Setup, w: World, datagram: seq<byte>) {
    && Published(u).Some? && w.produced != []
    && |w.produced| == (|Published(u).value| + 511) / 512
    && datagram == AckPacket(Label(|w.produced|))
  }

  /** The server listens and gets DATA or ERROR, the last ACK, or a request it cannot serve. */
  ghost predicate Closing(u: Setup, w: World, step: Step) {
    && Enabled(w, step) && Listening(w) && step.ServerReceives?
    && var d := w.channel.datagram;
       Aborts(d) || LastAcked(u, w, d) || (d == RequestPacket(u) && u.name !in u.dir)
  }

  ghost predicate ClosedBy(u: Setup, steps: seq<Step>) {
    steps != [] &&
    var init := steps[..|steps| - 1];
    ClosedBy(u, init) || Closing(u, Run(u, init), steps[|steps| - 1])
  }

  lemma ClosingStep(u: Setup, w: World, step: Step)
    requires WellFormed(u) && Inv(u, w)
    ensures
      var t := Apply(w, u, step).server;
      && (t.alive <==> w.server.alive && !Closing(u, w, step))
      && (w.server.alive && !t.alive ==> t.file == Closed && t.wire == w.server.wire)
  {
    hide Detect, React, IdealPackets, DataPacket, Block, ClientHolds, SendBlock, Processed, AckPacket;
    if step.ServerReceives? && Enabled(w, step) && Listening(w) {
      var d := w.channel.datagram;
      DatagramClosesIff(w.server, d, step.beyond, u.dir, u.disk);
      KindIff(d, step.beyond);
      AckOpcode(Label(|w.produced|));
      if d == RequestPacket(u) {
        NameDetected(u.name, u.rest, step.beyond);
      } else if !IsStray(d) {
        EndCovers(Published(u).value, |w.produced|);
      }
    }
  }

  /**
   * In every run the session is closed exactly when, while it was listening, a DATA or
   * ERROR packet came, or the ACK of the last block, or a request for an unpublished name.
   */
  lemma {:induction false} ClosedIff(u: Setup, steps: seq<Step>)
    requires WellFormed(u)
    ensures !Run(u, steps).server.alive <==> ClosedBy(u, steps)
  {
    hide Apply, Inv, Closing;
    if steps != [] {
      var init := steps[..|steps| - 1];
      ClosedIff(u, init);
      Invariant(u, init);
      ClosingStep(u, Run(u, init), steps[|steps| - 1]);
    }
  }

  /** The datagram a request leads to is misread as one for a name that is not published. */
  lemma UnknownNameCloses(u: Setup, beyond: seq<byte>)
    requires |beyond| == BEYOND_SIZE
    requires Detect(RequestPacket(u), beyond).RRQ?
    requires Detect(RequestPacket(u), beyond).filename !in u.dir
    ensures
      var w := Run(u, [Request, ServerReceives(beyond, true)]);
      !w.server.alive && !w.aborted && w.produced == [] && w.client.received == []
  {
    hide Detect;
    var steps := [Request, ServerReceives(beyond, true)];
    assert steps[..1] == [Request];
    FirstRequest(u);
  }

  ghost predicate Delivers(u: Setup)
    requires Published(u).Some?
  {
    forall steps :: !Run(u, steps).server.alive && !Run(u, steps).aborted ==>
      Run(u, steps).client.received == Published(u).value
  }

  /**
   * A closed session means delivery, unless the client breaks it off, for every directory,
   * memory, channel and sequence of steps, exactly for the names that the receive buffer
   * takes whole. For the others there is a run that closes with nothing sent.
   */
  lemma DeliversIff(name: seq<byte>)
    requires 0 !in name
    ensures (forall u: Setup :: u.name == name && Published(u).Some? ==> Delivers(u))
            <==> |NamedRequest(name, [])| <= 258
  {
    hide Run, Detect;
    if |NamedRequest(name, [])| <= RECEIVE_SIZE {
      forall u: Setup, steps | u.name == name && Published(u).Some?
                              && !Run(u, steps).server.alive && !Run(u, steps).aborted
        ensures Run(u, steps).client.received == Published(u).value
      {
        ClosedMeansDelivered(u, steps);
      }
    } else {
      var u := Setup(name, [], map[name := [1]], map[[1] := [1]]);
      var beyond := Repeat(if |name| == RECEIVE_SIZE - 2 then 1 else 0, BEYOND_SIZE);
      LongNameMisread(name, [], beyond);
      UnknownNameCloses(u, beyond);
      assert Published(u) == Some([1]);
      assert !Delivers(u);
    }
  }

  lemma ResendStep(w: World, u: Setup, sends: bool)
    requires InRange(w.server) && Enabled(w, Timer(sends))
    ensures
      var t := Apply(w, u, Timer(sends));
      && t.server.file == w.server.file && t.produced == w.produced && t.client == w.client
      && t.channel == if w.server.output.None? || !sends then Empty else ToClient(w.server.output.value)
  {
  }

  /** In every run a resend carries the last packet built and leaves the file where it was. */
  lemma ResendIsIdentical(u: Setup, steps: seq<Step>, sends: bool)
    requires WellFormed(u) && Enabled(Run(u, steps), Timer(sends))
    ensures
      var w := Run(u, steps);
      var t := Run(u, steps + [Timer(sends)]);
      && t.server.file == w.server.file && t.produced == w.produced && t.client == w.client
      && if w.produced == [] || !sends then t.channel == Empty
         else t.channel == ToClient(w.produced[|w.produced| - 1])
  {
    hide Apply, Enabled, DataPacket, Block;
    Invariant(u, steps);
    ResendStep(Run(u, steps), u, sends);
    assert (steps + [Timer(sends)])[..|steps|] == steps;
  }

  // ----- retries, and the ways in which a session falls silent -----

  predicate Resent(w: World, step: Step) {
    step.Timer? && Enabled(w, step) && w.server.output.Some?
  }

  /** Timeouts of a run that led to a resend. */
  function Resends(u: Setup, steps: seq<Step>): nat {
    if steps == [] then 0
    else
      var init, last := steps[..|steps| - 1], steps[|steps| - 1];
      Resends(u, init) + if Resent(Run(u, init), last) then 1 else 0
  }

  /** One of them failed. */
  predicate ResendFailed(u: Setup, steps: seq<Step>) {
    steps != [] &&
    var init, last := steps[..|steps| - 1], steps[|steps| - 1];
    ResendFailed(u, init) || (Resent(Run(u, init), last) && !last.sends)
  }

  /** The timer has fired. */
  predicate Rung(u: Setup, steps: seq<Step>) {
    steps != [] &&
    var init, last := steps[..|steps| - 1], steps[|steps| - 1];
    Rung(u, init) || (last.Timer? && Enabled(Run(u, init), last))
  }

  ghost predicate RetryInv(w: World, n: nat, failed: bool, rung: bool) {
    && (w.server.output.None? ==> (w.server.timeout <==> rung))
    && w.server.tries == n % TRIES_LIMIT
    && (w.server.output.None? ==> n == 0)
    && (failed ==> !w.pending && w.server.output.Some?)
    && (w.server.output.Some? ==> (w.server.timeout <==> failed && n % TRIES_LIMIT == 0))
  }

  lemma RetryStep(u: Setup, w: World, step: Step, n: nat, failed: bool, rung: bool)
    requires InRange(w.server) && RetryInv(w, n, failed, rung)
    ensures
      var resent := Resent(w, step);
      RetryInv(Apply(w, u, step), if resent then n + 1 else n, failed || (resent && !step.sends),
               rung || (step.Timer? && Enabled(w, step)))
  {
    hide Processed, Detect, React;
  }

  lemma {:induction false} RetriesCount(u: Setup, steps: seq<Step>)
    ensures RetryInv(Run(u, steps), Resends(u, steps), ResendFailed(u, steps), Rung(u, steps))
  {
    hide Apply, Resent;
    if steps != [] {
      var init := steps[..|steps| - 1];
      RetriesCount(u, init);
      RetryStep(u, Run(u, init), steps[|steps| - 1], Resends(u, init), ResendFailed(u, init), Rung(u, init));
    }
  }

  /**
   * The retry counter runs through all resends of a session, modulo its limit: no progress
   * resets it. And reaching the limit gives a session that has sent something up only if
   * that very resend fails; otherwise the next receive clears the flag again. One that has
   * sent nothing is given up at the first timeout.
   */
  lemma RetriesEndSessionIff(u: Setup, steps: seq<Step>)
    requires WellFormed(u)
    ensures Run(u, steps).server.tries == Resends(u, steps) % 12
    ensures Run(u, steps).produced != [] ==>
              (Run(u, steps).server.timeout <==>
                 ResendFailed(u, steps) && Resends(u, steps) % 12 == 0)
    ensures Run(u, steps).produced == [] ==> (Run(u, steps).server.timeout <==> Rung(u, steps))
  {
    hide Run, Resends, ResendFailed, Rung, IdealPackets, DataPacket, Block, InFlight, ClientHolds;
    Invariant(u, steps);
    RetriesCount(u, steps);
  }

  lemma SilentStep(u: Setup, w: World, step: Step)
    requires InRange(w.server) && !w.pending
    ensures
      var t := Apply(w, u, step);
      && t.server == w.server && t.produced == w.produced && !t.pending
      && (!w.channel.ToClient? ==> t.client == w.client && !t.channel.ToClient?)
  {
    hide React;
  }

  /** Once nothing is under way the server never acts again, whatever happens. */
  lemma {:induction false} SilentForever(u: Setup, steps: seq<Step>, more: seq<Step>)
    requires !Run(u, steps).pending
    ensures
      var w, t := Run(u, steps), Run(u, steps + more);
      && t.server == w.server && t.produced == w.produced && !t.pending
      && (!w.channel.ToClient? ==> t.client == w.client && !t.channel.ToClient?)
    decreases |more|
  {
    hide Apply;
    if more == [] {
      assert steps + more == steps;
    } else {
      var init := more[..|more| - 1];
      SilentForever(u, steps, init);
      SilentStep(u, Run(u, steps + init), more[|more| - 1]);
      assert (steps + more)[..|steps + more| - 1] == steps + init;
    }
  }

  /** A request that meets a running task, a datagram of no known kind, or a send that fails. */
  predicate Hushing(u: Setup, w: World, step: Step) {
    && Enabled(w, step) && Listening(w)
    && match step
       case ServerReceives(beyond, sends) =>
         || !sends || Opcode(w.channel.datagram) !in {1, 3, 4, 5}
         || (w.channel.datagram == RequestPacket(u) && w.server.task == Uploading)
       case Timer(sends) => !sends
       case _ => false
  }

  predicate Hushed(u: Setup, steps: seq<Step>) {
    steps != [] &&
    var init := steps[..|steps| - 1];
    Hushed(u, init) || Hushing(u, Run(u, init), steps[|steps| - 1])
  }

  lemma HushingStep(u: Setup, w: World, step: Step)
    requires WellFormed(u) && Inv(u, w) && w.pending
    ensures
      var t := Apply(w, u, step);
      && (Hushing(u, w, step) ==> !t.pending)
      && (t.produced != [] && t.server.alive && !t.server.timeout && !t.pending ==> Hushing(u, w, step))
  {
    hide Detect, React, IdealPackets, DataPacket, Block, ClientHolds;
    if step.ServerReceives? && Enabled(w, step) && w.channel.datagram == RequestPacket(u) {
      NameDetected(u.name, u.rest, step.beyond);
    } else if step.ServerReceives? && Enabled(w, step) {
      KindIff(w.channel.datagram, step.beyond);
      if !IsStray(w.channel.datagram) {
        AckDetected(Label(|w.produced|), step.beyond);
      }
    }
  }

  /**
   * A session that has sent something and is neither closed nor given up goes silent, for
   * good, exactly when a repeated request or a datagram of no known kind meets it, or one
   * of its sends fails.
   */
  lemma {:induction false} SilentIff(u: Setup, steps: seq<Step>)
    requires WellFormed(u)
    ensures
      var w := Run(u, steps);
      && (Hushed(u, steps) ==> !w.pending)
      && (w.produced != [] && w.server.alive && !w.server.timeout ==> (w.pending <==> !Hushed(u, steps)))
  {
    hide Apply, Inv, Hushing;
    if steps != [] {
      var init, last := steps[..|steps| - 1], steps[|steps| - 1];
      SilentIff(u, init);
      Invariant(u, init);
      if Run(u, init).pending {
        HushingStep(u, Run(u, init), last);
      } else {
        SilentStep(u, Run(u, init), last);
      }
    }
  }

  // ----- what becomes of it when the ACKs are not the client's newest -----

  /** The session once the request has been served and then the given ACK ids, in order. */
  function ServeAcks(bytes: seq<byte>, acks: seq<uint16>): (s: State)
    ensures InRange(s)
  {
    if acks == [] then
      SendBlock(Opened(FRESH, true).(task := Uploading, file := Open(bytes, 0)), 1)
    else
      Processed(ServeAcks(bytes, acks[..|acks| - 1]).(input := Some(Ack(acks[|acks| - 1]))), map[], map[])
  }

  /** Block i+1 under the label that the i-th ACK leads to. */
  function LedPackets(bytes: seq<byte>, acks: seq<uint16>): seq<seq<byte>> {
    seq(|acks| + 1, i requires 0 <= i <= |acks| =>
      DataPacket(if i == 0 then 1 else NextId(acks[i - 1]), Block(bytes, i + 1)))
  }

  lemma OneAck(s: State, id: uint16, bytes: seq<byte>, k: nat)
    requires InRange(s) && s.task == Uploading && s.file == Open(bytes, End(bytes, k))
    requires k < BlockCount(bytes)
    ensures
      var t := Processed(s.(input := Some(Ack(id))), map[], map[]);
      && t.alive == s.alive && t.task == Uploading && t.file == Open(bytes, End(bytes, k + 1))
      && t.wire == s.wire + [DataPacket(NextId(id), Block(bytes, k + 1))]
  {
    EndCovers(bytes, k);
  }

  lemma {:induction false} FirstServed(bytes: seq<byte>, acks: seq<uint16>)
    requires 0 < BlockCount(bytes) && acks == []
    ensures
      var s := ServeAcks(bytes, acks);
      && s.alive && s.task == Uploading && s.file == Open(bytes, End(bytes, 1))
      && s.wire == LedPackets(bytes, acks)
  {
    hide DataPacket;
    EndCovers(bytes, 0);
    assert LedPackets(bytes, acks) == [DataPacket(1, Block(bytes, 1))];
  }

  /**
   * The server never looks back: packet i+1 holds block i+1, whatever ACK asked for it,
   * and is labelled with the successor of that ACK.
   */
  lemma {:induction false} AckDrivesLabel(bytes: seq<byte>, acks: seq<uint16>)
    requires |acks| < BlockCount(bytes)
    ensures
      var s := ServeAcks(bytes, acks);
      && s.alive && s.task == Uploading && s.file == Open(bytes, End(bytes, |acks| + 1))
      && s.wire == LedPackets(bytes, acks)
  {
    if acks == [] {
      FirstServed(bytes, acks);
    } else {
      var init, last := acks[..|acks| - 1], acks[|acks| - 1];
      hide Processed, DataPacket, Block;
      AckDrivesLabel(bytes, init);
      OneAck(ServeAcks(bytes, init), last, bytes, |acks|);
      assert LedPackets(bytes, acks) ==
             LedPackets(bytes, init) + [DataPacket(NextId(last), Block(bytes, |acks| + 1))];
    }
  }

  lemma LabelStepIff(id: uint16, k: nat)
    ensures NextId(id) == Label(k + 1) <==> id == Label(k)
  {
    hide Label;
    LabelSteps(k);
    NextIdInjective(id, Label(k));
  }

  lemma NextIdInjective(a: uint16, b: uint16)
    ensures NextId(a) == NextId(b) <==> a == b
  {
  }

  lemma LedPacketView(bytes: seq<byte>, acks: seq<uint16>, i: nat)
    requires i <= |acks| < BlockCount(bytes)
    ensures ParseData(LedPackets(bytes, acks)[i]) ==
            DataView(if i == 0 then 1 else NextId(acks[i - 1]), Block(bytes, i + 1))
  {
    EndCovers(bytes, i + 1);
    DataRoundTrip(if i == 0 then 1 else NextId(acks[i - 1]), Block(bytes, i + 1));
  }

  ghost predicate RightlyLabelled(bytes: seq<byte>, wire: seq<seq<byte>>) {
    forall i :: 0 <= i < |wire| ==> ParseData(wire[i]) == DataView(Label(i + 1), Block(bytes, i + 1))
  }

  lemma LedSize(bytes: seq<byte>, acks: seq<uint16>)
    ensures |LedPackets(bytes, acks)| == |acks| + 1
    ensures Label(1) == 1
  {
  }

  lemma LedRightlyIff(bytes: seq<byte>, acks: seq<uint16>)
    requires |acks| < BlockCount(bytes)
    ensures RightlyLabelled(bytes, LedPackets(bytes, acks))
            <==> forall i :: 0 <= i < |acks| ==> acks[i] == Label(i + 1)
  {
    hide LedPackets, ParseData, DataPacket, Block, NextId, Label;
    var wire := LedPackets(bytes, acks);
    LedSize(bytes, acks);
    forall i | 0 <= i < |wire|
      ensures ParseData(wire[i]) == DataView(Label(i + 1), Block(bytes, i + 1))
              <==> (i > 0 ==> acks[i - 1] == Label(i))
    {
      LedPacketView(bytes, acks, i);
      if i > 0 {
        LabelStepIff(acks[i - 1], i);
      }
    }
    if RightlyLabelled(bytes, wire) {
      forall i | 0 <= i < |acks| ensures acks[i] == Label(i + 1) {
        assert ParseData(wire[i + 1]) == DataView(Label(i + 2), Block(bytes, i + 2));
      }
    }
  }

  /**
   * So the packets are the ones RFC 1350 section 2 requires exactly when each ACK the
   * server acts on names the block it sent last. A repeated or stale ACK breaks it.
   */
  lemma LabelsRightIff(bytes: seq<byte>, acks: seq<uint16>)
    requires |acks| < BlockCount(bytes)
    ensures |ServeAcks(bytes, acks).wire| == |acks| + 1
    ensures RightlyLabelled(bytes, ServeAcks(bytes, acks).wire)
            <==> forall i :: 0 <= i < |acks| ==> acks[i] == Label(i + 1)
  {
    AckDrivesLabel(bytes, acks);
    LedRightlyIff(bytes, acks);
  }

  /** Two full blocks after one another are what the file holds there. */
  lemma SecondBlockIs(bytes: seq<byte>, block: seq<byte>)
    requires |bytes| >= 2 * BLOCK_SIZE && |block| <= BLOCK_SIZE
    ensures bytes[..BLOCK_SIZE] + block <= bytes <==> block <= Block(bytes, 2)
  {
    var c := bytes[..BLOCK_SIZE] + block;
    assert Block(bytes, 2) == bytes[BLOCK_SIZE..2 * BLOCK_SIZE];
    if c <= bytes {
      assert block == c[BLOCK_SIZE..] == bytes[BLOCK_SIZE..|c|];
      assert block == Block(bytes, 2)[..|block|];
    }
    if block <= Block(bytes, 2) {
      assert block == bytes[BLOCK_SIZE..|c|];
      assert bytes[..|c|] == c;
    }
  }

  lemma Accepts(c: Client, datagram: seq<byte>, id: uint16, payload: seq<byte>)
    requires ParseData(datagram) == DataView(id, payload)
    requires !c.finished && id == Label(c.blocks + 1)
    ensures React(c, datagram).client == Client(c.received + payload, c.blocks + 1, |payload| < BLOCK_SIZE)
  {
  }

  /**
   * A client that follows the RFC then takes block 3 for block 2. Unless block 3 happens
   * to start block 2, what it holds is not a prefix of the file.
   */
  lemma ThirdTakenForSecond(bytes: seq<byte>, p1: seq<byte>, p3: seq<byte>)
    requires BlockCount(bytes) >= 3
    requires ParseData(p1) == DataView(1, Block(bytes, 1)) && ParseData(p3) == DataView(2, Block(bytes, 3))
    ensures
      var held := React(React(START.client, p1).client, p3).client.received;
      && held == bytes[..BLOCK_SIZE] + Block(bytes, 3)
      && (held <= bytes <==> Block(bytes, 3) <= Block(bytes, 2))
  {
    hide React, ParseData;
    var first := Block(bytes, 1);
    assert [] + first == first == bytes[..BLOCK_SIZE];
    Accepts(START.client, p1, 1, first);
    Accepts(Client(first, 1, false), p3, 2, Block(bytes, 3));
    EndCovers(bytes, 3);
    SecondBlockIs(bytes, Block(bytes, 3));
  }

  lemma ServedView(bytes: seq<byte>, acks: seq<uint16>, i: nat)
    requires i <= |acks| < BlockCount(bytes)
    ensures |ServeAcks(bytes, acks).wire| == |acks| + 1
    ensures ParseData(ServeAcks(bytes, acks).wire[i]) ==
            DataView(if i == 0 then 1 else NextId(acks[i - 1]), Block(bytes, i + 1))
  {
    AckDrivesLabel(bytes, acks);
    LedPacketView(bytes, acks, i);
  }

  /** With the ACK of block 1 acted on twice, block 3 goes out under label 2. */
  lemma RepeatedAckSendsThirdAsSecond(bytes: seq<byte>, acks: seq<uint16>, wire: seq<seq<byte>>)
    requires BlockCount(bytes) >= 3
    requires |acks| == 2 && acks[0] == 1 && acks[1] == 1 && wire == ServeAcks(bytes, acks).wire
    ensures |wire| == 3
    ensures ParseData(wire[0]) == DataView(1, Block(bytes, 1))
    ensures ParseData(wire[2]) == DataView(2, Block(bytes, 3))
  {
    assert NextId(1) == 2;
    ServedView(bytes, acks, 0);
    ServedView(bytes, acks, 2);
  }

  /** Extends a run by one step. */
  lemma RunSnoc(u: Setup, steps: seq<Step>, step: Step)
    ensures Run(u, steps + [step]) == Apply(Run(u, steps), u, step)
  {
    assert (steps + [step])[..|steps|] == steps;
  }

  lemma FirstRequest(u: Setup)
    ensures Run(u, [Request]) == START.(channel := ToServer(RequestPacket(u)))
  {
    assert [Request][..0] == [];
  }

  const MEMORY: seq<byte> := Zeros(BEYOND_SIZE)

  /** The first request is served, be it answered or lost afterwards. */
  lemma FirstExchange(u: Setup, bytes: seq<byte>, w: World)
    requires WellFormed(u) && Published(u) == Some(bytes) && bytes != []
    requires w == START.(channel := ToServer(RequestPacket(u)))
    ensures
      var v := Apply(w, u, ServerReceives(MEMORY, true));
      && v.channel == ToClient(DataPacket(1, BlockAt(bytes, 0))) && v.client == w.client
      && Listening(v) && v.server.task == Uploading && |v.produced| == 1 && !v.aborted
      && v.server.file == Open(bytes, |BlockAt(bytes, 0)|)
  {
    hide Detect, DataPacket;
    NameDetected(u.name, u.rest, MEMORY);
  }

  lemma LastExchange(u: Setup, bytes: seq<byte>, w: World)
    requires |bytes| == BLOCK_SIZE && w.channel == ToClient(DataPacket(1, bytes)) && !w.aborted
    requires w.client == START.client && InRange(w.server)
    requires Listening(w) && w.server.task == Uploading && w.server.file == Open(bytes, BLOCK_SIZE)
    ensures
      var t := Apply(Apply(w, u, ClientReceives), u, ServerReceives(MEMORY, true));
      !t.server.alive && !t.aborted
  {
    hide Detect, DataPacket, AckPacket;
    DataRoundTrip(1, bytes);
    assert bytes[..Min(|bytes|, BLOCK_SIZE)] == bytes;
    var w3 := Apply(w, u, ClientReceives);
    assert w3.channel == ToServer(AckPacket(1)) && w3.server == w.server;
    AckDetected(1, MEMORY);
    AckOpcode(1);
    assert Received(w3.server, AckPacket(1), MEMORY) == w3.server.(input := Some(Ack(1)));
  }

  /** A file of exactly one full block: the server closes, the client waits for more. */
  lemma FullLastBlockLeavesClientWaiting(u: Setup, bytes: seq<byte>) returns (steps: seq<Step>)
    requires WellFormed(u) && Published(u) == Some(bytes) && |bytes| == BLOCK_SIZE
    ensures !Run(u, steps).server.alive
    ensures Run(u, steps).client.received == bytes && !Run(u, steps).client.finished
  {
    hide Apply, DataPacket;
    var receive := ServerReceives(MEMORY, true);
    var s1, w1 := [Request], START.(channel := ToServer(RequestPacket(u)));
    FirstRequest(u);
    FirstExchange(u, bytes, w1);
    assert BlockAt(bytes, 0) == bytes;
    RunSnoc(u, s1, receive);
    LastExchange(u, bytes, Apply(w1, u, receive));
    var s2 := s1 + [receive];
    RunSnoc(u, s2, ClientReceives);
    RunSnoc(u, s2 + [ClientReceives], receive);
    steps := s2 + [ClientReceives] + [receive];
    ClosedMeansDelivered(u, steps);
  }

  /** Block 1 is lost and the client asks again before the timer fires: nothing more happens. */
  lemma RepeatedRequestHangs(u: Setup, bytes: seq<byte>, more: seq<Step>) returns (steps: seq<Step>)
    requires WellFormed(u) && Published(u) == Some(bytes) && bytes != []
    ensures
      var t := Run(u, steps + more);
      && t.server.alive && !t.server.timeout && |t.produced| == 1
      && t.client.received == [] && !t.channel.ToClient?
  {
    hide DataPacket, Served;
    var receive := ServerReceives(MEMORY, true);
    var s1, w1 := [Request], START.(channel := ToServer(RequestPacket(u)));
    FirstRequest(u);
    FirstExchange(u, bytes, w1);
    RunSnoc(u, s1, receive);
    var w2, s2 := Apply(w1, u, receive), s1 + [receive];
    RunSnoc(u, s2, Loss);
    RunSnoc(u, s2 + [Loss], Request);
    RunSnoc(u, s2 + [Loss] + [Request], receive);
    steps := s2 + [Loss] + [Request] + [receive];
    assert Run(u, s2 + [Loss] + [Request]) == w2.(channel := ToServer(RequestPacket(u)));
    hide Apply, Run;
    RequestIgnored(u, w2.(channel := ToServer(RequestPacket(u))));
    SilentForever(u, steps, more);
  }

  lemma RequestIgnored(u: Setup, w: World)
    requires WellFormed(u) && Published(u).Some? && InRange(w.server)
    requires w.channel == ToServer(RequestPacket(u)) && Listening(w) && w.server.task == Uploading
    ensures
      var t := Apply(w, u, ServerReceives(MEMORY, true));
      && t.server == w.server.(input := None) && !t.pending && t.channel == Empty
      && t.client == w.client && t.produced == w.produced
  {
    hide Detect;
    NameDetected(u.name, u.rest, MEMORY);
  }
}
