/**
 * sdp.cpp and regiloader.cpp: the walk over the device configuration data of an image,
 * and the serial packets that replay it. A memory is a function of the address, so
 * nothing limits what lies behind the list. How a command header is laid out is left
 * open: a Layout says how its four bytes give tag and length.
 */
module Sdp {
  import opened Bytes

  type Memory = nat -> byte

  const CMD_TAG: byte := 0xCC
  const HEADER: nat := 4
  const PAIR: nat := 8

  datatype Layout = Layout(tag: seq<byte> -> byte, length: seq<byte> -> uint16)

  /** An address and a value or mask, each four bytes as they stand in memory. */
  datatype Pair = Pair(addr: seq<byte>, valMask: seq<byte>)

  datatype Command = Command(header: seq<byte>, pairs: seq<Pair>)

  function Peek(mem: Memory, at: nat, count: nat): (s: seq<byte>)
    ensures |s| == count
  {
    seq(count, i requires 0 <= i < count => mem(at + i))
  }

  const ZERO_WORD: seq<byte> := [0, 0, 0, 0]

  function PairAt(mem: Memory, at: nat): Pair {
    Pair(Peek(mem, at, 4), Peek(mem, at + 4, 4))
  }

  predicate IsZero(p: Pair) {
    p.addr == ZERO_WORD && p.valMask == ZERO_WORD
  }

  /** The amount of pairs by C++ integer division; a length below 4 gives none. */
  function Amount(length: uint16): nat {
    if length < 4 then 0 else (length - 4) / PAIR
  }

  /** InitDCDListOfCommandsPairs: up to `left` pairs, ending before the first zero pair. */
  function PairsFrom(mem: Memory, at: nat, left: nat): (pairs: seq<Pair>)
    ensures |pairs| <= left
    decreases left
  {
    if left == 0 || IsZero(PairAt(mem, at)) then []
    else [PairAt(mem, at)] + PairsFrom(mem, at + PAIR, left - 1)
  }

  function CommandAt(mem: Memory, at: nat, layout: Layout): Command {
    var header := Peek(mem, at, HEADER);
    Command(header, PairsFrom(mem, at + HEADER, Amount(layout.length(header))))
  }

  function SizeOf(c: Command): nat {
    HEADER + PAIR * |c.pairs|
  }

  /** InitDCDListOfCommands; it ends because every command takes at least its header. */
  function Walk(mem: Memory, at: nat, end: int, layout: Layout): seq<Command>
    decreases end - at
  {
    if at >= end || layout.tag(Peek(mem, at, HEADER)) != CMD_TAG then []
    else
      var c := CommandAt(mem, at, layout);
      [c] + Walk(mem, at + SizeOf(c), end, layout)
  }

  /** The commands of a list; `length` is that of the whole, its own header of four bytes included. */
  function Listed(mem: Memory, list: nat, length: uint16, layout: Layout): seq<Command> {
    Walk(mem, list, list + length - HEADER, layout)
  }

  class Firmware {
    var cmdList: seq<Command>

    constructor ()
      ensures cmdList == []
    {
      cmdList := [];
    }

    static method InitPairs(mem: Memory, listPtr: nat, length: uint16) returns (pairs: seq<Pair>, next: nat)
      ensures pairs == PairsFrom(mem, listPtr, Amount(length))
      ensures next == listPtr + PAIR * |pairs|
    {
      var amount := Amount(length);
      pairs := [];
      next := listPtr;
      var i := 0;
      while i < amount
        invariant 0 <= i <= amount && |pairs| == i && next == listPtr + PAIR * i
        invariant PairsFrom(mem, listPtr, amount) == pairs + PairsFrom(mem, next, amount - i)
      {
        if IsZero(PairAt(mem, next)) {
          return;
        }
        pairs := pairs + [PairAt(mem, next)];
        next := next + PAIR;
        i := i + 1;
      }
    }

    method InitCommands(mem: Memory, list: nat, length: uint16, layout: Layout)
      modifies this
      ensures cmdList == old(cmdList) + Listed(mem, list, length, layout)
    {
      hide PairsFrom, Peek, Walk;
      var listPtr, listEnd := list, list + length - 4;
      WalkStops(mem, list, listEnd, layout);
      if length == 4 {
        return;
      }
      ghost var found: seq<Command> := [];
      while listPtr < listEnd
        invariant cmdList == old(cmdList) + found
        invariant Walk(mem, list, listEnd, layout) == found + Walk(mem, listPtr, listEnd, layout)
        decreases listEnd - listPtr
      {
        WalkStops(mem, listPtr, listEnd, layout);
        var header := Peek(mem, listPtr, HEADER);
        if layout.tag(header) != CMD_TAG {
          assert found + [] == found;
          return;
        }
        WalkGoesOn(mem, listPtr, listEnd, layout);
        var pairs, next := InitPairs(mem, listPtr + HEADER, layout.length(header));
        cmdList := cmdList + [Command(header, pairs)];
        found := found + [Command(header, pairs)];
        listPtr := next;
      }
      WalkStops(mem, listPtr, listEnd, layout);
      assert found + [] == found;
    }
  }

  lemma {:induction false} WalkStops(mem: Memory, at: nat, end: int, layout: Layout)
    ensures at >= end || layout.tag(Peek(mem, at, HEADER)) != CMD_TAG ==> Walk(mem, at, end, layout) == []
  {
  }

  lemma {:induction false} WalkGoesOn(mem: Memory, at: nat, end: int, layout: Layout)
    requires at < end && layout.tag(Peek(mem, at, HEADER)) == CMD_TAG
    ensures
      var c := CommandAt(mem, at, layout);
      Walk(mem, at, end, layout) == [c] + Walk(mem, at + SizeOf(c), end, layout)
  {
  }

  // ----- what the walk records -----

  function PairBytes(p: Pair): seq<byte> {
    p.addr + p.valMask
  }

  function PairsBytes(pairs: seq<Pair>): seq<byte> {
    if pairs == [] then [] else PairBytes(pairs[0]) + PairsBytes(pairs[1..])
  }

  function CommandBytes(c: Command): seq<byte> {
    c.header + PairsBytes(c.pairs)
  }

  function ListBytes(cmds: seq<Command>): seq<byte> {
    if cmds == [] then [] else CommandBytes(cmds[0]) + ListBytes(cmds[1..])
  }

  lemma PeekPlus(mem: Memory, at: nat, m: nat, n: nat)
    ensures Peek(mem, at, m + n) == Peek(mem, at, m) + Peek(mem, at + m, n)
  {
  }

  /** A pair ends the list exactly when all its eight bytes are zero. */
  lemma ZeroPairIff(p: Pair)
    requires |p.addr| == 4 && |p.valMask| == 4
    ensures IsZero(p) <==> PairBytes(p) == Zeros(8)
  {
    assert ZERO_WORD + ZERO_WORD == Zeros(8);
    assert PairBytes(p)[..4] == p.addr && PairBytes(p)[4..] == p.valMask;
    assert Zeros(8)[..4] == ZERO_WORD && Zeros(8)[4..] == ZERO_WORD;
  }

  lemma {:induction false} PairsTile(mem: Memory, at: nat, left: nat)
    ensures
      var pairs := PairsFrom(mem, at, left);
      && PairsBytes(pairs) == Peek(mem, at, PAIR * |pairs|)
      && forall i :: 0 <= i < |pairs| ==>
           |pairs[i].addr| == 4 && |pairs[i].valMask| == 4 && PairBytes(pairs[i]) != Zeros(8)
    decreases left
  {
    ZeroPairIff(PairAt(mem, at));
    if left > 0 && !IsZero(PairAt(mem, at)) {
      PairsTile(mem, at + PAIR, left - 1);
      PeekPlus(mem, at, 4, 4);
      PeekPlus(mem, at, PAIR, PAIR * |PairsFrom(mem, at + PAIR, left - 1)|);
    }
  }

  /** A command as the walk can record it. */
  ghost predicate Recorded(c: Command, layout: Layout) {
    && |c.header| == 4 && layout.tag(c.header) == 0xCC
    && (c.pairs == [] || 4 + 8 * |c.pairs| <= layout.length(c.header))
    && forall i :: 0 <= i < |c.pairs| ==>
         |c.pairs[i].addr| == 4 && |c.pairs[i].valMask| == 4 && PairBytes(c.pairs[i]) != Zeros(8)
  }

  /**
   * The recorded commands tile the walked bytes in order, from the start to a place that
   * is behind the end of the list or holds no command.
   */
  lemma {:induction false} WalkTiles(mem: Memory, at: nat, end: int, layout: Layout)
    ensures
      var cmds := Walk(mem, at, end, layout);
      var size := |ListBytes(cmds)|;
      && ListBytes(cmds) == Peek(mem, at, size)
      && (forall i :: 0 <= i < |cmds| ==> Recorded(cmds[i], layout))
      && (at + size >= end || layout.tag(Peek(mem, at + size, 4)) != 0xCC)
    decreases end - at
  {
    hide PairsFrom, Peek, Recorded, CommandBytes;
    if at < end && layout.tag(Peek(mem, at, HEADER)) == CMD_TAG {
      var c := CommandAt(mem, at, layout);
      CommandTiles(mem, at, layout);
      WalkTiles(mem, at + SizeOf(c), end, layout);
      PeekPlus(mem, at, SizeOf(c), |ListBytes(Walk(mem, at + SizeOf(c), end, layout))|);
    } else {
      PeekNothing(mem, at);
    }
  }

  lemma PeekNothing(mem: Memory, at: nat)
    ensures Peek(mem, at, 0) == []
  {
  }

  lemma {:induction false} CommandTiles(mem: Memory, at: nat, layout: Layout)
    ensures
      var c := CommandAt(mem, at, layout);
      && CommandBytes(c) == Peek(mem, at, SizeOf(c))
      && (layout.tag(c.header) == CMD_TAG ==> Recorded(c, layout))
  {
    hide PairsFrom, Peek, PairsBytes;
    var c := CommandAt(mem, at, layout);
    PairsTile(mem, at + HEADER, Amount(layout.length(c.header)));
    PeekPlus(mem, at, HEADER, PAIR * |c.pairs|);
  }

  /** A command takes all the pairs that its length has room for, unless eight zero bytes stop it. */
  lemma {:induction false} PairsStop(mem: Memory, at: nat, left: nat)
    ensures
      var n := |PairsFrom(mem, at, left)|;
      n == left || Peek(mem, at + 8 * n, 8) == Zeros(8)
    decreases left
  {
    hide Peek;
    if left > 0 {
      if IsZero(PairAt(mem, at)) {
        ZeroPairIff(PairAt(mem, at));
        PeekPlus(mem, at, 4, 4);
      } else {
        PairsStop(mem, at + PAIR, left - 1);
      }
    }
  }

  lemma CommandStops(mem: Memory, at: nat, layout: Layout)
    ensures
      var c := CommandAt(mem, at, layout);
      var length, n := layout.length(Peek(mem, at, 4)), |c.pairs|;
      && (n == 0 || 4 + 8 * n <= length)
      && (length < 4 + 8 * (n + 1) || Peek(mem, at + 4 + 8 * n, 8) == Zeros(8))
  {
    hide Peek, PairsFrom;
    PairsStop(mem, at + 4, Amount(layout.length(Peek(mem, at, 4))));
  }

  // ----- an encoded list is parsed back -----

  ghost predicate Encoded(c: Command, layout: Layout) {
    && |c.header| == 4 && layout.tag(c.header) == 0xCC
    && layout.length(c.header) == 4 + 8 * |c.pairs|
    && forall i :: 0 <= i < |c.pairs| ==> |c.pairs[i].addr| == 4 && |c.pairs[i].valMask| == 4
  }

  ghost predicate NoZeroPair(c: Command) {
    forall i :: 0 <= i < |c.pairs| ==> PairBytes(c.pairs[i]) != Zeros(8)
  }

  lemma PeekSplit(mem: Memory, at: nat, a: seq<byte>, b: seq<byte>)
    requires Peek(mem, at, |a + b|) == a + b
    ensures Peek(mem, at, |a|) == a && Peek(mem, at + |a|, |b|) == b
  {
    PeekPlus(mem, at, |a|, |b|);
    assert (a + b)[..|a|] == a && (a + b)[|a|..] == b;
  }

  lemma {:induction false} PairsSize(pairs: seq<Pair>)
    requires forall i :: 0 <= i < |pairs| ==> |pairs[i].addr| == 4 && |pairs[i].valMask| == 4
    ensures |PairsBytes(pairs)| == PAIR * |pairs|
    decreases |pairs|
  {
    if pairs != [] {
      PairsSize(pairs[1..]);
    }
  }

  /** Of some pairs in memory, those before the first of eight zero bytes are kept. */
  lemma {:induction false} PairsKept(mem: Memory, at: nat, pairs: seq<Pair>, k: nat)
    requires forall i :: 0 <= i < |pairs| ==> |pairs[i].addr| == 4 && |pairs[i].valMask| == 4
    requires Peek(mem, at, |PairsBytes(pairs)|) == PairsBytes(pairs)
    requires k <= |pairs| && forall i :: 0 <= i < k ==> PairBytes(pairs[i]) != Zeros(8)
    requires k < |pairs| ==> PairBytes(pairs[k]) == Zeros(8)
    ensures PairsFrom(mem, at, |pairs|) == pairs[..k]
    decreases |pairs|
  {
    hide Peek, PairBytes;
    if pairs != [] {
      PeekSplit(mem, at, PairBytes(pairs[0]), PairsBytes(pairs[1..]));
      PairSplit(mem, at, pairs[0]);
      ZeroPairIff(pairs[0]);
      if k > 0 {
        PairsKept(mem, at + PAIR, pairs[1..], k - 1);
        assert pairs[..k] == [pairs[0]] + pairs[1..][..k - 1];
      }
    }
  }

  lemma PairSplit(mem: Memory, at: nat, p: Pair)
    requires |p.addr| == 4 && |p.valMask| == 4 && Peek(mem, at, |PairBytes(p)|) == PairBytes(p)
    ensures PairAt(mem, at) == p && |PairBytes(p)| == 8
  {
    hide Peek;
    PeekSplit(mem, at, p.addr, p.valMask);
  }

  /** What is recorded of an encoded command: its pairs up to the first of eight zero bytes. */
  lemma {:induction false} CommandKept(mem: Memory, at: nat, c: Command, layout: Layout, k: nat)
    requires Encoded(c, layout) && Peek(mem, at, |CommandBytes(c)|) == CommandBytes(c)
    requires k <= |c.pairs| && forall i :: 0 <= i < k ==> PairBytes(c.pairs[i]) != Zeros(8)
    requires k < |c.pairs| ==> PairBytes(c.pairs[k]) == Zeros(8)
    ensures CommandAt(mem, at, layout) == Command(c.header, c.pairs[..k])
    ensures Peek(mem, at, 4) == c.header && |CommandBytes(c)| == 4 + 8 * |c.pairs|
  {
    hide Peek, PairsFrom, PairBytes;
    PeekSplit(mem, at, c.header, PairsBytes(c.pairs));
    PairsSize(c.pairs);
    PairsKept(mem, at + HEADER, c.pairs, k);
  }

  lemma {:induction false} CommandBack(mem: Memory, at: nat, c: Command, layout: Layout)
    requires Encoded(c, layout) && NoZeroPair(c)
    requires Peek(mem, at, |CommandBytes(c)|) == CommandBytes(c)
    ensures CommandAt(mem, at, layout) == c && |CommandBytes(c)| == SizeOf(c)
    ensures Peek(mem, at, HEADER) == c.header
  {
    hide Peek, PairsFrom, PairBytes;
    CommandKept(mem, at, c, layout, |c.pairs|);
    assert c.pairs[..|c.pairs|] == c.pairs;
  }

  lemma {:induction false} ListBack(mem: Memory, at: nat, cmds: seq<Command>, layout: Layout)
    requires forall i :: 0 <= i < |cmds| ==> Encoded(cmds[i], layout) && NoZeroPair(cmds[i])
    requires Peek(mem, at, |ListBytes(cmds)|) == ListBytes(cmds)
    ensures Walk(mem, at, at + |ListBytes(cmds)|, layout) == cmds
    decreases |cmds|
  {
    hide Peek, Encoded, NoZeroPair, CommandAt, CommandBytes, Walk;
    if cmds == [] {
      WalkStops(mem, at, at, layout);
    } else {
      var c, rest := cmds[0], cmds[1..];
      PeekSplit(mem, at, CommandBytes(c), ListBytes(rest));
      CommandBack(mem, at, c, layout);
      ListBack(mem, at + SizeOf(c), rest, layout);
      TagOfEncoded(c, layout);
      WalkGoesOn(mem, at, at + |ListBytes(cmds)|, layout);
      assert cmds == [c] + rest;
    }
  }

  lemma TagOfEncoded(c: Command, layout: Layout)
    requires Encoded(c, layout)
    ensures layout.tag(c.header) == CMD_TAG
  {
  }

  /**
   * A list of encoded commands, of whose length its own header of four bytes is a part,
   * parses back to itself exactly when no pair in it is eight zero bytes.
   */
  lemma ParsedBackIff(mem: Memory, at: nat, cmds: seq<Command>, layout: Layout)
    requires forall i :: 0 <= i < |cmds| ==> Encoded(cmds[i], layout)
    requires Peek(mem, at, |ListBytes(cmds)|) == ListBytes(cmds) && |ListBytes(cmds)| + 4 < 0x1_0000
    ensures Listed(mem, at, |ListBytes(cmds)| + 4, layout) == cmds
            <==> forall i :: 0 <= i < |cmds| ==> NoZeroPair(cmds[i])
  {
    hide Peek, Encoded, Walk, ListBytes;
    var end := at + |ListBytes(cmds)|;
    if Walk(mem, at, end, layout) == cmds {
      WalkTiles(mem, at, end, layout);
      forall i | 0 <= i < |cmds| ensures NoZeroPair(cmds[i]) {
        assert Recorded(cmds[i], layout);
      }
    }
    if forall i :: 0 <= i < |cmds| ==> NoZeroPair(cmds[i]) {
      ListBack(mem, at, cmds, layout);
    }
  }

  // ----- packets -----

  const PKT_SIZE: nat := 16

  /** Where an array starts, and where its byte `src` goes, in 8-bit arithmetic. */
  function Start(offs: byte, size: nat, msb: bool): byte {
    (if msb then offs + size - 1 else offs) % 256
  }

  function Place(start: byte, src: nat, msb: bool): byte {
    (if msb then start - src else start + src) % 256
  }

  function Store(packet: seq<byte>, at: nat, b: byte): (r: seq<byte>)
    ensures |r| == |packet|
  {
    if at < |packet| then packet[at := b] else packet
  }

  /** The packet after the first n bytes of the array have been added. */
  function Added(packet: seq<byte>, offs: byte, arr: seq<byte>, msb: bool, n: nat): (r: seq<byte>)
    requires n <= |arr|
    ensures |r| == |packet|
  {
    if n == 0 then packet
    else Store(Added(packet, offs, arr, msb, n - 1), Place(Start(offs, |arr|, msb), n - 1, msb), arr[n - 1])
  }

  function AddArr(packet: seq<byte>, offs: byte, arr: seq<byte>, msb: bool, reqSize: nat): (r: seq<byte>)
    ensures |r| == |packet|
  {
    if arr == [] || Start(offs, |arr|, msb) >= reqSize then packet
    else Added(packet, offs, arr, msb, |arr|)
  }

  function Reversed(s: seq<byte>): (r: seq<byte>)
    ensures |r| == |s|
  {
    seq(|s|, i requires 0 <= i < |s| => s[|s| - 1 - i])
  }

  class Packet {
    const bytes: array<byte>
    const reqSize: nat

    ghost predicate Valid() {
      bytes.Length == PKT_SIZE
    }

    constructor (requestSize: nat)
      ensures Valid() && fresh(bytes) && reqSize == requestSize
      ensures bytes[..] == Zeros(PKT_SIZE)
    {
      bytes := new byte[PKT_SIZE](_ => 0);
      reqSize := requestSize;
    }

    method AddArray(offs: byte, arr: seq<byte>, msb: bool)
      requires Valid() && |arr| < 256
      modifies bytes
      ensures bytes[..] == AddArr(old(bytes[..]), offs, arr, msb, reqSize)
    {
      if |arr| == 0 {
        return;
      }
      hide Start, Place;
      var start := Start(offs, |arr|, msb);
      if start >= reqSize {
        return;
      }
      var src := 0;
      while src < |arr|
        invariant 0 <= src <= |arr|
        invariant bytes[..] == Added(old(bytes[..]), offs, arr, msb, src)
      {
        var dst := Place(start, src, msb);
        if dst < PKT_SIZE {
          bytes[dst] := arr[src];
        }
        src := src + 1;
      }
    }

    method GetArray(offs: byte, was: seq<byte>, msb: bool) returns (arr: seq<byte>)
      requires Valid() && |was| < 256
      ensures arr == GetArr(bytes[..], offs, was, msb, reqSize)
    {
      hide Start, Place;
      arr := was;
      if |was| == 0 {
        return;
      }
      var start := Start(offs, |was|, msb);
      if start >= reqSize {
        return;
      }
      var src := 0;
      while src < |was|
        invariant 0 <= src <= |was| == |arr|
        invariant forall i :: 0 <= i < src ==>
                    arr[i] == if Place(start, i, msb) < PKT_SIZE then bytes[Place(start, i, msb)] else was[i]
        invariant forall i :: src <= i < |was| ==> arr[i] == was[i]
      {
        var at := Place(start, src, msb);
        if at < PKT_SIZE {
          arr := arr[src := bytes[at]];
        }
        src := src + 1;
      }
    }
  }

  /** The array read back; places outside the packet keep what the caller passed in. */
  function GetArr(packet: seq<byte>, offs: byte, was: seq<byte>, msb: bool, reqSize: nat): (r: seq<byte>)
    ensures |r| == |was|
  {
    var start := Start(offs, |was|, msb);
    if was == [] || start >= reqSize then was
    else seq(|was|, i requires 0 <= i < |was| =>
               if Place(start, i, msb) < |packet| then packet[Place(start, i, msb)] else was[i])
  }

  lemma NoWrap(offs: byte, size: nat, src: nat, msb: bool)
    requires src < size && offs + size <= 256
    ensures Start(offs, size, msb) == if msb then offs + size - 1 else offs
    ensures Place(Start(offs, size, msb), src, msb) == if msb then offs + size - 1 - src else offs + src
  {
  }

  /** What byte i of the packet holds after n bytes of the array. */
  function LandsAt(packet: seq<byte>, offs: byte, arr: seq<byte>, msb: bool, n: nat, i: nat): byte
    requires n <= |arr| && i < |packet|
  {
    if offs <= i < offs + n && !msb then arr[i - offs]
    else if offs + |arr| - n <= i < offs + |arr| && msb then arr[offs + |arr| - 1 - i]
    else packet[i]
  }

  lemma {:induction false} AddedLands(packet: seq<byte>, offs: byte, arr: seq<byte>, msb: bool, n: nat, i: nat)
    requires n <= |arr| && offs + |arr| <= |packet| <= 256 && i < |packet|
    ensures Added(packet, offs, arr, msb, n)[i] == LandsAt(packet, offs, arr, msb, n, i)
  {
    hide Start, Place;
    if n > 0 {
      AddedLands(packet, offs, arr, msb, n - 1, i);
      NoWrap(offs, |arr|, n - 1, msb);
    }
  }

  /** Inside the packet an array lands in one piece, last byte first if msb is asked for. */
  lemma AddArrLands(packet: seq<byte>, offs: byte, arr: seq<byte>, msb: bool, reqSize: nat)
    requires arr != [] && offs + |arr| <= |packet| <= 256 && offs + |arr| <= reqSize
    ensures AddArr(packet, offs, arr, msb, reqSize) ==
            packet[..offs] + (if msb then Reversed(arr) else arr) + packet[offs + |arr|..]
  {
    hide Added, Start;
    NoWrap(offs, |arr|, 0, msb);
    var whole := if msb then Reversed(arr) else arr;
    var landed := packet[..offs] + whole + packet[offs + |arr|..];
    forall i | 0 <= i < |packet| ensures Added(packet, offs, arr, msb, |arr|)[i] == landed[i] {
      AddedLands(packet, offs, arr, msb, |arr|, i);
    }
  }

  /** What has been added is read back, in either byte order. */
  lemma GetsBack(packet: seq<byte>, offs: byte, arr: seq<byte>, was: seq<byte>, msb: bool, reqSize: nat)
    requires arr != [] && offs + |arr| <= |packet| <= 256 && offs + |arr| <= reqSize && |was| == |arr|
    ensures GetArr(AddArr(packet, offs, arr, msb, reqSize), offs, was, msb, reqSize) == arr
  {
    hide Added, Start, Place;
    var full := AddArr(packet, offs, arr, msb, reqSize);
    NoWrap(offs, |arr|, 0, msb);
    forall i | 0 <= i < |arr| ensures GetArr(full, offs, was, msb, reqSize)[i] == arr[i] {
      NoWrap(offs, |arr|, i, msb);
      AddedLands(packet, offs, arr, msb, |arr|, Place(Start(offs, |arr|, msb), i, msb));
    }
  }

  /** Byte k of an array at `offs` belongs, modulo 256, k bytes after its start or before its end. */
  lemma PlaceIs(offs: byte, size: nat, k: nat, msb: bool)
    requires k < size
    ensures Place(Start(offs, size, msb), k, msb) == (if msb then offs + (size - 1 - k) else offs + k) % 256
    ensures Start(offs, size, msb) == Place(Start(offs, size, msb), 0, msb)
  {
  }

  /**
   * Every byte of the packet after an array has been added anywhere: if its first byte has
   * a place in the request, each byte goes to its place, and the other places keep theirs.
   */
  lemma AddArrAt(packet: seq<byte>, offs: byte, arr: seq<byte>, msb: bool, reqSize: nat, i: nat)
    requires |arr| < 256 && i < |packet| <= 256
    ensures
      var p, start := AddArr(packet, offs, arr, msb, reqSize), Start(offs, |arr|, msb);
      && (arr == [] || start >= reqSize ==> p[i] == packet[i])
      && (arr != [] && start < reqSize ==>
            && (forall k :: 0 <= k < |arr| && i == Place(start, k, msb) ==> p[i] == arr[k])
            && ((forall k :: 0 <= k < |arr| ==> i != Place(start, k, msb)) ==> p[i] == packet[i]))
  {
    hide Start, Place, Added;
    if arr != [] && Start(offs, |arr|, msb) < reqSize {
      AddedAt(packet, offs, arr, msb, |arr|, i);
    }
  }

  lemma {:induction false} AddedAt(packet: seq<byte>, offs: byte, arr: seq<byte>, msb: bool, n: nat, i: nat)
    requires n <= |arr| < 256 && i < |packet| <= 256
    ensures
      var p, start := Added(packet, offs, arr, msb, n), Start(offs, |arr|, msb);
      && (forall k :: 0 <= k < n && i == Place(start, k, msb) ==> p[i] == arr[k])
      && ((forall k :: 0 <= k < n ==> i != Place(start, k, msb)) ==> p[i] == packet[i])
  {
    hide Start, Place;
    if n > 0 {
      AddedAt(packet, offs, arr, msb, n - 1, i);
      var start := Start(offs, |arr|, msb);
      forall k | 0 <= k < n - 1 ensures Place(start, k, msb) != Place(start, n - 1, msb) {
        PlacesDiffer(start, k, n - 1, msb);
      }
    }
  }

  lemma PlacesDiffer(start: byte, k: nat, l: nat, msb: bool)
    requires k < l < 256
    ensures Place(start, k, msb) != Place(start, l, msb)
  {
  }

  // ----- the packets that replay the list -----

  const WORD_SIZE: byte := 0x20

  function WriteMem(p: Pair): seq<byte> {
    var p1 := AddArr(Zeros(PKT_SIZE), 2, p.addr, false, PKT_SIZE);
    var p2 := AddArr(p1, 6, [WORD_SIZE], false, PKT_SIZE);
    var p3 := AddArr(p2, 11, p.valMask, false, PKT_SIZE);
    AddArr(p3, 0, [0x02, 0x02], false, PKT_SIZE)
  }

  /** The amount 1 goes in most significant byte first. */
  function ReadMem(p: Pair): seq<byte> {
    var p1 := AddArr(Zeros(PKT_SIZE), 2, p.addr, false, PKT_SIZE);
    var p2 := AddArr(p1, 6, [WORD_SIZE], false, PKT_SIZE);
    var p3 := AddArr(p2, 7, [1, 0, 0, 0], true, PKT_SIZE);
    AddArr(p3, 0, [0x01, 0x01], false, PKT_SIZE)
  }

  lemma WithAddress(addr: seq<byte>)
    requires |addr| == 4
    ensures AddArr(AddArr(Zeros(PKT_SIZE), 2, addr, false, PKT_SIZE), 6, [WORD_SIZE], false, PKT_SIZE) ==
            Zeros(2) + addr + [WORD_SIZE] + Zeros(9)
  {
    hide AddArr;
    AddArrLands(Zeros(PKT_SIZE), 2, addr, false, PKT_SIZE);
    var p1 := AddArr(Zeros(PKT_SIZE), 2, addr, false, PKT_SIZE);
    assert p1 == Zeros(2) + addr + Zeros(10);
    AddArrLands(p1, 6, [WORD_SIZE], false, PKT_SIZE);
  }

  lemma WriteMemIs(p: Pair)
    requires |p.addr| == 4 && |p.valMask| == 4
    ensures WriteMem(p) == [0x02, 0x02] + p.addr + [0x20] + [0, 0, 0, 0] + p.valMask + [0]
  {
    hide AddArr;
    WithAddress(p.addr);
    var p2 := Zeros(2) + p.addr + [WORD_SIZE] + Zeros(9);
    AddArrLands(p2, 11, p.valMask, false, PKT_SIZE);
    var p3 := Zeros(2) + p.addr + [WORD_SIZE] + ZERO_WORD + p.valMask + [0];
    assert p3 == p2[..11] + p.valMask + p2[15..];
    AddArrLands(p3, 0, [0x02, 0x02], false, PKT_SIZE);
    assert p3[..0] == [] && p3[2..] == p.addr + [WORD_SIZE] + ZERO_WORD + p.valMask + [0];
  }

  lemma ReadMemIs(p: Pair)
    requires |p.addr| == 4
    ensures ReadMem(p) == [0x01, 0x01] + p.addr + [0x20] + [0, 0, 0, 1] + Zeros(5)
  {
    hide AddArr;
    WithAddress(p.addr);
    var p2 := Zeros(2) + p.addr + [WORD_SIZE] + Zeros(9);
    AddArrLands(p2, 7, [1, 0, 0, 0], true, PKT_SIZE);
    assert Reversed([1, 0, 0, 0]) == [0, 0, 0, 1];
    var p3 := Zeros(2) + p.addr + [WORD_SIZE] + [0, 0, 0, 1] + Zeros(5);
    assert p3 == p2[..7] + [0, 0, 0, 1] + p2[11..];
    AddArrLands(p3, 0, [0x01, 0x01], false, PKT_SIZE);
    assert p3[..0] == [] && p3[2..] == p.addr + [WORD_SIZE] + [0, 0, 0, 1] + Zeros(5);
  }

  method SendWriteMem(p: Pair) returns (sent: seq<byte>)
    requires |p.addr| < 256 && |p.valMask| < 256
    ensures sent == WriteMem(p)
  {
    hide AddArr;
    var pkt := new Packet(PKT_SIZE);
    pkt.AddArray(2, p.addr, false);
    pkt.AddArray(6, [WORD_SIZE], false);
    pkt.AddArray(11, p.valMask, false);
    pkt.AddArray(0, [0x02, 0x02], false);
    sent := pkt.bytes[..];
  }

  method SendReadMem(p: Pair) returns (sent: seq<byte>)
    requires |p.addr| < 256
    ensures sent == ReadMem(p)
  {
    hide AddArr;
    var pkt := new Packet(PKT_SIZE);
    pkt.AddArray(2, p.addr, false);
    pkt.AddArray(6, [WORD_SIZE], false);
    pkt.AddArray(7, [1, 0, 0, 0], true);
    pkt.AddArray(0, [0x01, 0x01], false);
    sent := pkt.bytes[..];
  }

  function AllPairs(cmds: seq<Command>): seq<Pair> {
    if cmds == [] then [] else AllPairs(cmds[..|cmds| - 1]) + cmds[|cmds| - 1].pairs
  }

  /** A write and a read for each pair. */
  function Uploaded(pairs: seq<Pair>): (wire: seq<seq<byte>>)
    ensures |wire| == 2 * |pairs|
  {
    seq(2 * |pairs|, i requires 0 <= i < 2 * |pairs| =>
      if i % 2 == 0 then WriteMem(pairs[i / 2]) else ReadMem(pairs[i / 2]))
  }

  lemma UploadedSnoc(pairs: seq<Pair>, p: Pair)
    ensures Uploaded(pairs + [p]) == Uploaded(pairs) + [WriteMem(p), ReadMem(p)]
  {
    hide WriteMem, ReadMem;
  }

  ghost predicate WordPairs(cmds: seq<Command>) {
    forall i, k :: 0 <= i < |cmds| && 0 <= k < |cmds[i].pairs| ==>
      |cmds[i].pairs[k].addr| == 4 && |cmds[i].pairs[k].valMask| == 4
  }

  // ----- attempts -----

  const MAX_TRIES: nat := 4

  /** How often a packet goes out: until it is answered, but at most `left` times. */
  function Tries(answered: nat -> bool, from: nat, left: nat): (k: nat)
    requires left > 0
    ensures 0 < k <= left
    ensures k == 1 <==> answered(from) || left == 1
    decreases left
  {
    if answered(from) || left == 1 then 1 else 1 + Tries(answered, from + 1, left - 1)
  }

  /** What goes out for some packets, each repeated as its answers demand. */
  function Repeated(packets: seq<seq<byte>>, answered: nat -> bool, from: nat): (wire: seq<seq<byte>>)
    ensures |wire| >= |packets|
  {
    if packets == [] then []
    else
      var n := |packets| - 1;
      var before := Repeated(packets[..n], answered, from);
      before + Repeat(packets[n], Tries(answered, from + |before|, MAX_TRIES))
  }

  lemma {:induction false} RepeatedSnoc(packets: seq<seq<byte>>, packet: seq<byte>, answered: nat -> bool, from: nat)
    ensures
      var before := Repeated(packets, answered, from);
      Repeated(packets + [packet], answered, from) ==
      before + Repeat(packet, Tries(answered, from + |before|, MAX_TRIES))
  {
    assert (packets + [packet])[..|packets|] == packets;
  }

  lemma TriesUnfold(answered: nat -> bool, from: nat, left: nat)
    requires left > 0
    ensures Tries(answered, from, left) ==
            if answered(from) || left == 1 then 1 else 1 + Tries(answered, from + 1, left - 1)
  {
  }

  lemma RepeatMore<T>(x: T, n: nat)
    ensures Repeat(x, 0) == [] && Repeat(x, n + 1) == Repeat(x, n) + [x]
  {
  }

  /** The line logs every attempt; `answered(i)` says whether the i-th was answered in time. */
  class Line {
    const answered: nat -> bool
    var wire: seq<seq<byte>>

    constructor (answers: nat -> bool)
      ensures answered == answers && wire == []
    {
      answered, wire := answers, [];
    }

    method Transmit(packet: seq<byte>)
      modifies this
      ensures wire == old(wire) + Repeat(packet, Tries(answered, |old(wire)|, MAX_TRIES))
    {
      hide Tries, Repeat;
      var tryNum := 1;
      RepeatMore(packet, 0);
      while tryNum <= MAX_TRIES
        invariant 1 <= tryNum <= MAX_TRIES + 1
        invariant wire == old(wire) + Repeat(packet, tryNum - 1)
        invariant Tries(answered, |old(wire)|, MAX_TRIES) == tryNum - 1 +
                  if tryNum > MAX_TRIES then 0 else Tries(answered, |wire|, MAX_TRIES - (tryNum - 1))
      {
        TriesUnfold(answered, |wire|, MAX_TRIES - (tryNum - 1));
        RepeatMore(packet, tryNum - 1);
        wire := wire + [packet];
        if answered(|wire| - 1) {
          break;
        }
        tryNum := tryNum + 1;
      }
    }
  }

  /** UploadDCD; the values read back change nothing. */
  method UploadDCD(cmds: seq<Command>, line: Line)
    requires WordPairs(cmds)
    modifies line
    ensures line.wire == old(line.wire) + Repeated(Uploaded(AllPairs(cmds)), line.answered, |old(line.wire)|)
  {
    hide Uploaded, Repeated, AllPairs;
    ghost var base, from := line.wire, |line.wire|;
    NothingUploaded(line.answered, from);
    var c := 0;
    while c < |cmds|
      invariant 0 <= c <= |cmds|
      invariant line.wire == old(line.wire) + Repeated(Uploaded(AllPairs(cmds[..c])), line.answered, from)
    {
      UploadPairs(cmds[c].pairs, line, AllPairs(cmds[..c]), base);
      AllPairsSnoc(cmds[..c], cmds[c]);
      assert cmds[..c + 1] == cmds[..c] + [cmds[c]];
      c := c + 1;
    }
    assert cmds[..c] == cmds;
  }

  /** The inner loop: the pairs of one command, when those of `done` have gone out. */
  method UploadPairs(pairs: seq<Pair>, line: Line, ghost done: seq<Pair>, ghost base: seq<seq<byte>>)
    requires forall k :: 0 <= k < |pairs| ==> |pairs[k].addr| == 4 && |pairs[k].valMask| == 4
    requires line.wire == base + Repeated(Uploaded(done), line.answered, |base|)
    modifies line
    ensures line.wire == base + Repeated(Uploaded(done + pairs), line.answered, |base|)
  {
    hide WriteMem, ReadMem, Uploaded, Repeated;
    assert done + pairs[..0] == done;
    var k := 0;
    while k < |pairs|
      invariant 0 <= k <= |pairs|
      invariant line.wire == base + Repeated(Uploaded(done + pairs[..k]), line.answered, |base|)
    {
      SendPair(pairs[k], line, done + pairs[..k], base);
      assert done + pairs[..k] + [pairs[k]] == done + pairs[..k + 1];
      k := k + 1;
    }
    assert pairs[..k] == pairs;
  }

  method SendPair(p: Pair, line: Line, ghost done: seq<Pair>, ghost base: seq<seq<byte>>)
    requires |p.addr| == 4 && |p.valMask| == 4
    requires line.wire == base + Repeated(Uploaded(done), line.answered, |base|)
    modifies line
    ensures line.wire == base + Repeated(Uploaded(done + [p]), line.answered, |base|)
  {
    hide WriteMem, ReadMem, Uploaded, Repeated, Tries;
    var write := SendWriteMem(p);
    line.Transmit(write);
    var read := SendReadMem(p);
    line.Transmit(read);
    PairRepeated(done, p, line.answered, |base|);
  }

  lemma {:induction false} AllPairsSnoc(cmds: seq<Command>, c: Command)
    ensures AllPairs(cmds + [c]) == AllPairs(cmds) + c.pairs
  {
    assert (cmds + [c])[..|cmds|] == cmds;
  }

  lemma NothingUploaded(answered: nat -> bool, from: nat)
    ensures Repeated(Uploaded(AllPairs([])), answered, from) == []
  {
  }

  lemma PairRepeated(pairs: seq<Pair>, p: Pair, answered: nat -> bool, from: nat)
    ensures
      var before := Repeated(Uploaded(pairs), answered, from);
      var written := before + Repeat(WriteMem(p), Tries(answered, from + |before|, MAX_TRIES));
      Repeated(Uploaded(pairs + [p]), answered, from) ==
      written + Repeat(ReadMem(p), Tries(answered, from + |written|, MAX_TRIES))
  {
    hide WriteMem, ReadMem, Uploaded, Repeated, Tries;
    UploadedSnoc(pairs, p);
    RepeatedSnoc(Uploaded(pairs), WriteMem(p), answered, from);
    RepeatedSnoc(Uploaded(pairs) + [WriteMem(p)], ReadMem(p), answered, from);
    assert Uploaded(pairs) + [WriteMem(p)] + [ReadMem(p)] == Uploaded(pairs) + [WriteMem(p), ReadMem(p)];
  }

  /** Where packet i starts on the wire. */
  function StartOf(packets: seq<seq<byte>>, answered: nat -> bool, from: nat, i: nat): nat
    requires i <= |packets|
  {
    |Repeated(packets[..i], answered, from)|
  }

  /**
   * Every packet goes out in its turn, one to four times in a row: again while it is not
   * answered, and less than four times only if the last attempt was.
   */
  lemma {:induction false} EachInTurn(packets: seq<seq<byte>>, answered: nat -> bool, from: nat, i: nat)
    requires i < |packets|
    ensures
      var wire, lo, hi := Repeated(packets, answered, from),
                          StartOf(packets, answered, from, i), StartOf(packets, answered, from, i + 1);
      && lo < hi <= lo + 4 && hi <= |wire|
      && (forall t :: lo <= t < hi ==> wire[t] == packets[i])
      && (forall j: nat :: from + lo <= j < from + hi - 1 ==> !answered(j))
      && (hi < lo + 4 ==> answered(from + hi - 1))
  {
    hide Tries;
    var n := |packets| - 1;
    if i < n {
      EachInTurn(packets[..n], answered, from, i);
      assert packets[..n][..i] == packets[..i] && packets[..n][..i + 1] == packets[..i + 1];
      assert packets[..n][i] == packets[i];
    } else {
      assert packets[..n + 1] == packets;
      TriesIff(answered, from + StartOf(packets, answered, from, n), MAX_TRIES);
    }
  }

  lemma {:induction false} TriesIff(answered: nat -> bool, from: nat, left: nat)
    requires left > 0
    ensures
      var k := Tries(answered, from, left);
      && (forall j: nat :: from <= j < from + k - 1 ==> !answered(j))
      && (k < left ==> answered(from + k - 1))
    decreases left
  {
    if !answered(from) && left > 1 {
      TriesIff(answered, from + 1, left - 1);
    }
  }

  /** The wire is the plain list of packets exactly when each is answered at once. */
  lemma {:induction false} OnceEachIff(packets: seq<seq<byte>>, answered: nat -> bool, from: nat)
    ensures Repeated(packets, answered, from) == packets
            <==> forall j: nat :: from <= j < from + |packets| ==> answered(j)
  {
    hide Tries;
    if packets != [] {
      var n := |packets| - 1;
      var before, last := Repeated(packets[..n], answered, from), packets[n];
      OnceEachIff(packets[..n], answered, from);
      var k := Tries(answered, from + |before|, MAX_TRIES);
      TriesOnce(answered, from + |before|);
      assert packets == packets[..n] + [last];
      if k == 1 && before == packets[..n] {
        assert Repeat(last, 1) == [last];
      }
      if Repeated(packets, answered, from) == packets {
        assert |before| == n && k == 1;
        assert before == packets[..n];
      }
    }
  }

  lemma TriesOnce(answered: nat -> bool, from: nat)
    ensures Tries(answered, from, MAX_TRIES) == 1 <==> answered(from)
    ensures Tries(answered, from, MAX_TRIES) > 0
  {
  }

  /**
   * The i-th write packet carries the i-th pair's address and value bytes as they stand
   * in the list, and the read packet after it the same address.
   */
  lemma UploadVerbatim(pairs: seq<Pair>, i: nat)
    requires i < |pairs| && |pairs[i].addr| == 4 && |pairs[i].valMask| == 4
    ensures
      var w, r := Uploaded(pairs)[2 * i], Uploaded(pairs)[2 * i + 1];
      && |w| == |r| == 16
      && w[..2] == [0x02, 0x02] && r[..2] == [0x01, 0x01]
      && w[2..6] + w[11..15] == PairBytes(pairs[i])
      && r[2..6] == pairs[i].addr && r[7..11] == [0, 0, 0, 1]
  {
    hide WriteMem, ReadMem;
    WriteParts(pairs[i]);
    ReadParts(pairs[i]);
  }

  lemma WriteParts(p: Pair)
    requires |p.addr| == 4 && |p.valMask| == 4
    ensures
      var w := WriteMem(p);
      |w| == PKT_SIZE && w[..2] == [0x02, 0x02] && w[2..6] + w[11..15] == PairBytes(p)
  {
    hide WriteMem;
    WriteMemIs(p);
    PacketParts([0x02, 0x02], p.addr, [WORD_SIZE], ZERO_WORD, p.valMask + [0]);
    assert WriteMem(p) == [0x02, 0x02] + p.addr + [WORD_SIZE] + ZERO_WORD + (p.valMask + [0]);
    assert (p.valMask + [0])[..4] == p.valMask;
  }

  lemma ReadParts(p: Pair)
    requires |p.addr| == 4
    ensures
      var r := ReadMem(p);
      |r| == PKT_SIZE && r[..2] == [0x01, 0x01] && r[2..6] == p.addr && r[7..11] == [0, 0, 0, 1]
  {
    hide ReadMem;
    ReadMemIs(p);
    PacketParts([0x01, 0x01], p.addr, [WORD_SIZE], [0, 0, 0, 1], Zeros(5));
  }

  lemma PacketParts(cmd: seq<byte>, addr: seq<byte>, size: seq<byte>, amount: seq<byte>, rest: seq<byte>)
    requires |cmd| == 2 && |addr| == 4 && |size| == 1 && |amount| == 4 && |rest| == 5
    ensures
      var p := cmd + addr + size + amount + rest;
      p[..2] == cmd && p[2..6] == addr && p[7..11] == amount && p[11..15] == rest[..4]
  {
  }

  lemma {:induction false} AllPairsAreWords(cmds: seq<Command>, layout: Layout)
    requires forall i :: 0 <= i < |cmds| ==> Recorded(cmds[i], layout)
    ensures WordPairs(cmds)
    ensures forall i :: 0 <= i < |AllPairs(cmds)| ==>
              |AllPairs(cmds)[i].addr| == 4 && |AllPairs(cmds)[i].valMask| == 4
  {
    if cmds != [] {
      AllPairsAreWords(cmds[..|cmds| - 1], layout);
      assert Recorded(cmds[|cmds| - 1], layout);
    }
  }

  // ----- from memory to the wire -----

  /** How many pairs some commands have. */
  function PairsIn(cmds: seq<Command>): nat {
    if cmds == [] then 0 else PairsIn(cmds[..|cmds| - 1]) + |cmds[|cmds| - 1].pairs|
  }

  /** Pair k of command c comes after all pairs of the commands before. */
  lemma {:induction false} AllPairsAt(cmds: seq<Command>, c: nat, k: nat)
    requires c < |cmds| && k < |cmds[c].pairs|
    ensures |AllPairs(cmds)| == PairsIn(cmds)
    ensures PairsIn(cmds[..c]) + k < |AllPairs(cmds)|
    ensures AllPairs(cmds)[PairsIn(cmds[..c]) + k] == cmds[c].pairs[k]
  {
    var init := cmds[..|cmds| - 1];
    AllPairsCount(cmds);
    AllPairsCount(init);
    if c < |init| {
      AllPairsAt(init, c, k);
      assert init[..c] == cmds[..c];
    }
  }

  lemma {:induction false} AllPairsCount(cmds: seq<Command>)
    ensures |AllPairs(cmds)| == PairsIn(cmds)
  {
    if cmds != [] {
      AllPairsCount(cmds[..|cmds| - 1]);
    }
  }

  lemma {:induction false} ListPart(cmds: seq<Command>, c: nat)
    requires c < |cmds|
    ensures ListBytes(cmds) == ListBytes(cmds[..c]) + CommandBytes(cmds[c]) + ListBytes(cmds[c + 1..])
    decreases |cmds|
  {
    hide CommandBytes;
    if c > 0 {
      ListPart(cmds[1..], c - 1);
      assert cmds[1..][..c - 1] == cmds[..c][1..] && cmds[1..][c..] == cmds[c + 1..];
    }
  }

  lemma {:induction false} PairsPart(pairs: seq<Pair>, k: nat)
    requires k < |pairs|
    ensures PairsBytes(pairs) == PairsBytes(pairs[..k]) + PairBytes(pairs[k]) + PairsBytes(pairs[k + 1..])
    decreases |pairs|
  {
    hide PairBytes;
    if k > 0 {
      PairsPart(pairs[1..], k - 1);
      assert pairs[1..][..k - 1] == pairs[..k][1..] && pairs[1..][k..] == pairs[k + 1..];
    }
  }

  lemma PeekMiddle(mem: Memory, at: nat, a: seq<byte>, b: seq<byte>, c: seq<byte>)
    requires Peek(mem, at, |a + b + c|) == a + b + c
    ensures Peek(mem, at + |a|, |b|) == b
  {
    hide Peek;
    PeekSplit(mem, at, a + b, c);
    PeekSplit(mem, at, a, b);
  }

  /** Where in memory the walk has found pair k of command c. */
  lemma PairInMemory(mem: Memory, at: nat, end: int, layout: Layout, c: nat, k: nat)
    requires c < |Walk(mem, at, end, layout)| && k < |Walk(mem, at, end, layout)[c].pairs|
    ensures
      var cmds := Walk(mem, at, end, layout);
      PairBytes(cmds[c].pairs[k]) == Peek(mem, at + |ListBytes(cmds[..c])| + 4 + 8 * k, 8)
  {
    hide Walk, Peek, ListBytes, PairsBytes;
    var cmds := Walk(mem, at, end, layout);
    var cmd := cmds[c];
    WalkTiles(mem, at, end, layout);
    assert Recorded(cmd, layout);
    ListPart(cmds, c);
    PeekMiddle(mem, at, ListBytes(cmds[..c]), CommandBytes(cmd), ListBytes(cmds[c + 1..]));
    var start := at + |ListBytes(cmds[..c])|;
    PeekSplit(mem, start, cmd.header, PairsBytes(cmd.pairs));
    PairsPart(cmd.pairs, k);
    PairsSize(cmd.pairs[..k]);
    PeekMiddle(mem, start + 4, PairsBytes(cmd.pairs[..k]), PairBytes(cmd.pairs[k]), PairsBytes(cmd.pairs[k + 1..]));
  }

  /**
   * What UploadDCD puts on the wire for a walked list: in the turn of pair k of command c,
   * every attempt carries the eight bytes that stand in memory after the commands before,
   * the header of this one and the pairs before.
   */
  lemma ListIsReplayed(mem: Memory, at: nat, end: int, layout: Layout, answered: nat -> bool, from: nat, c: nat, k: nat)
    requires c < |Walk(mem, at, end, layout)| && k < |Walk(mem, at, end, layout)[c].pairs|
    ensures
      var cmds := Walk(mem, at, end, layout);
      var i, packets := PairsIn(cmds[..c]) + k, Uploaded(AllPairs(cmds));
      var wire := Repeated(packets, answered, from);
      && WordPairs(cmds) && |packets| == 2 * PairsIn(cmds) && i < PairsIn(cmds)
      && var lo, hi := StartOf(packets, answered, from, 2 * i), StartOf(packets, answered, from, 2 * i + 1);
      && lo < hi <= |wire|
      && forall t :: lo <= t < hi ==>
           && |wire[t]| == 16 && wire[t][..2] == [0x02, 0x02]
           && wire[t][2..6] + wire[t][11..15] == Peek(mem, at + |ListBytes(cmds[..c])| + 4 + 8 * k, 8)
  {
    hide Walk, Uploaded, AllPairs, Recorded, Repeated, StartOf, Peek, ListBytes, PairsIn;
    var cmds := Walk(mem, at, end, layout);
    var pairs, i := AllPairs(cmds), PairsIn(cmds[..c]) + k;
    WalkTiles(mem, at, end, layout);
    AllPairsAreWords(cmds, layout);
    AllPairsAt(cmds, c, k);
    PairInMemory(mem, at, end, layout, c, k);
    UploadVerbatim(pairs, i);
    EachInTurn(Uploaded(pairs), answered, from, 2 * i);
  }
}
