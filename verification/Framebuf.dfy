/**
 * framebuf.cpp: the weighted palette id of a pixel, its eight-lane conversion, and the
 * two frame buffers that are prepared in turn.
 */
module Framebuf {
  import opened Bytes

  const R_WEIGHT: nat := 28
  const G_WEIGHT: nat := 151
  const B_WEIGHT: nat := 77
  const LANES: nat := 8

  /** RGBQuad::GetId. */
  function GetId(r: byte, g: byte, b: byte): byte {
    (r * R_WEIGHT + g * G_WEIGHT + b * B_WEIGHT) / 256
  }

  /** The id is the weighted sum of the components, 28 : 151 : 77, scaled down by 256. */
  lemma GetIdIs(r: byte, g: byte, b: byte)
    ensures
      var id, sum := GetId(r, g, b) as int, 28 * (r as int) + 151 * (g as int) + 77 * (b as int);
      256 * id <= sum < 256 * (id + 1)
  {
  }

  /** The id of pixel p of a frame with `depth` bytes a pixel, red first. */
  function PixelId(src: seq<byte>, depth: nat, p: nat): byte
    requires 3 <= depth <= 4 && depth * p + 3 <= |src|
  {
    GetId(src[depth * p], src[depth * p + 1], src[depth * p + 2])
  }

  /** Red is the first byte of a pixel, green the second, blue the third. */
  lemma PixelIdIs(src: seq<byte>, depth: nat, p: nat)
    requires 3 <= depth <= 4 && depth * p + 3 <= |src|
    ensures
      var id, at := PixelId(src, depth, p) as int, depth * p;
      var sum := 28 * (src[at] as int) + 151 * (src[at + 1] as int) + 77 * (src[at + 2] as int);
      256 * id <= sum < 256 * (id + 1)
  {
    hide GetId;
    GetIdIs(src[depth * p], src[depth * p + 1], src[depth * p + 2]);
  }

  function PixelIds(src: seq<byte>, depth: nat, count: nat): (ids: seq<byte>)
    requires 3 <= depth <= 4 && depth * count <= |src|
    ensures |ids| == count
  {
    seq(count, p requires 0 <= p < count => PixelId(src, depth, p))
  }

  // ----- the vector instructions, lane by lane -----

  type Lanes8 = s: seq<byte> | |s| == LANES witness Zeros(LANES)
  type Lanes16 = s: seq<uint16> | |s| == LANES witness seq(LANES, _ => 0)

  /** vld3.8 and vld4.8: component c of eight consecutive pixels. */
  function LoadLanes(src: seq<byte>, at: nat, depth: nat, c: nat): Lanes8
    requires c < depth && at + depth * LANES <= |src| && depth <= 4
  {
    seq(LANES, i requires 0 <= i < LANES => src[at + depth * i + c])
  }

  /** vmull.u8 */
  function MulLong(a: Lanes8, weight: byte): Lanes16 {
    seq(LANES, i requires 0 <= i < LANES => (a[i] * weight) % 0x1_0000)
  }

  /** vmlal.u8, in 16-bit lanes. */
  function MulAddLong(acc: Lanes16, a: Lanes8, weight: byte): Lanes16 {
    seq(LANES, i requires 0 <= i < LANES => (acc[i] + a[i] * weight) % 0x1_0000)
  }

  /** vshrn.u16 by 8. */
  function ShiftNarrow(acc: Lanes16): Lanes8 {
    seq(LANES, i requires 0 <= i < LANES => acc[i] / 256 % 256)
  }

  function ConvertLanes(src: seq<byte>, at: nat, depth: nat): Lanes8
    requires 3 <= depth <= 4 && at + depth * LANES <= |src|
  {
    var q0 := MulLong(LoadLanes(src, at, depth, 0), R_WEIGHT);
    var q1 := MulAddLong(q0, LoadLanes(src, at, depth, 1), G_WEIGHT);
    var q2 := MulAddLong(q1, LoadLanes(src, at, depth, 2), B_WEIGHT);
    ShiftNarrow(q2)
  }

  /** No lane overflows: the weights add up to 256. */
  lemma LaneIsId(r: byte, g: byte, b: byte)
    ensures r * R_WEIGHT % 0x1_0000 == r * R_WEIGHT
    ensures (r * R_WEIGHT + g * G_WEIGHT) % 0x1_0000 == r * R_WEIGHT + g * G_WEIGHT
    ensures (r * R_WEIGHT + g * G_WEIGHT + b * B_WEIGHT) % 0x1_0000 == r * R_WEIGHT + g * G_WEIGHT + b * B_WEIGHT
    ensures (r * R_WEIGHT + g * G_WEIGHT + b * B_WEIGHT) / 256 % 256 == GetId(r, g, b)
  {
  }

  /** Eight lanes at once compute exactly the ids of eight pixels. */
  lemma LanesAreIds(src: seq<byte>, depth: nat, first: nat)
    requires 3 <= depth <= 4 && depth * (first + LANES) <= |src|
    ensures ConvertLanes(src, depth * first, depth) == PixelIds(src, depth, first + LANES)[first..]
  {
    forall i | 0 <= i < LANES
      ensures ConvertLanes(src, depth * first, depth)[i] == PixelId(src, depth, first + i)
    {
      var at := depth * (first + i);
      LaneIsId(src[at], src[at + 1], src[at + 2]);
    }
  }

  method WriteAt(dst: array<byte>, off: nat, bytes: seq<byte>)
    requires off + |bytes| <= dst.Length
    modifies dst
    ensures dst[..] == Overlaid(old(dst[..]), off, bytes)
  {
    forall i | 0 <= i < |bytes| {
      dst[off + i] := bytes[i];
    }
  }

  /** How many of n pixels the loop converts: whole groups of eight. */
  function Converted(n: nat): (c: nat)
    ensures c % 8 == 0 && n - 8 < c <= n
  {
    LANES * (n / LANES)
  }

  /**
   * Convert24ToPalette and Convert32ToPalette. The loop counts its rounds down to zero
   * after the first one, so it must not be entered with no round to do.
   */
  method ConvertToPalette(dst: array<byte>, off: nat, src: seq<byte>, depth: nat, size: nat) returns (ok: bool)
    requires 3 <= depth <= 4
    requires size == 0 || size >= LANES
    requires depth * Converted(size) <= |src| && off + Converted(size) <= dst.Length
    modifies dst
    ensures ok <==> size > 0
    ensures dst[..] == Overlaid(old(dst[..]), off, PixelIds(src, depth, Converted(size)))
  {
    hide Overlaid, PixelId, PixelIds, ConvertLanes;
    OverlaidNothing(dst[..], off);
    NoPixels(src, depth);
    if size == 0 {
      return false;
    }
    var rounds, done := size / LANES, 0;
    while rounds != 0
      invariant done == LANES * (size / LANES - rounds) && 0 <= rounds <= size / LANES
      invariant depth * done <= |src|
      invariant dst[..] == Overlaid(old(dst[..]), off, PixelIds(src, depth, done))
    {
      assert done + LANES <= Converted(size);
      LanesAreIds(src, depth, done);
      IdsPrefix(src, depth, done);
      WriteAt(dst, off + done, ConvertLanes(src, depth * done, depth));
      OverlaidMore(old(dst[..]), off, PixelIds(src, depth, done), ConvertLanes(src, depth * done, depth));
      done := done + LANES;
      rounds := rounds - 1;
    }
    ok := true;
  }

  lemma OverlaidNothing(data: seq<byte>, off: nat)
    requires off <= |data|
    ensures Overlaid(data, off, []) == data
  {
  }

  lemma OverlaidMore(data: seq<byte>, off: nat, a: seq<byte>, b: seq<byte>)
    requires off + |a| + |b| <= |data|
    ensures Overlaid(Overlaid(data, off, a), off + |a|, b) == Overlaid(data, off, a + b)
  {
  }

  lemma NoPixels(src: seq<byte>, depth: nat)
    requires 3 <= depth <= 4
    ensures PixelIds(src, depth, 0) == []
  {
  }

  lemma IdsPrefix(src: seq<byte>, depth: nat, done: nat)
    requires 3 <= depth <= 4 && depth * (done + LANES) <= |src|
    ensures PixelIds(src, depth, done + LANES) ==
            PixelIds(src, depth, done) + PixelIds(src, depth, done + LANES)[done..]
  {
  }

  /** All pixels are converted exactly when their number is a multiple of eight. */
  lemma AllConvertedIff(n: nat)
    ensures Converted(n) == n <==> n % LANES == 0
  {
  }

  // ----- the two frame buffers -----

  const HEAD_SIZE: nat := 54
  const PALETTE_SIZE: nat := 1024
  const BODY_AT: nat := HEAD_SIZE + PALETTE_SIZE

  /** BindToFbDev allocates the size of the screen memory and 1024 bytes more. */
  function BufferSize(pixels: nat, depth: nat): nat {
    pixels * depth + 1024
  }

  predicate FrameFits(pixels: nat, depth: nat) {
    BODY_AT + pixels <= BufferSize(pixels, depth)
  }

  /** A whole frame fits exactly when the bytes saved on the pixels pay for the header. */
  lemma FrameFitsIff(pixels: nat, depth: nat)
    requires depth > 0
    ensures FrameFits(pixels, depth) <==> pixels * (depth - 1) >= 54
  {
    assert pixels * depth == pixels * (depth - 1) + pixels;
  }

  function NewFrame(was: seq<byte>, header: seq<byte>, palette: seq<byte>, body: seq<byte>): (r: seq<byte>)
    requires |header| == HEAD_SIZE && |palette| == PALETTE_SIZE && BODY_AT + |body| <= |was|
    ensures |r| == |was|
    ensures r[..HEAD_SIZE] == header && r[HEAD_SIZE..BODY_AT] == palette
    ensures r[BODY_AT..BODY_AT + |body|] == body && r[BODY_AT + |body|..] == was[BODY_AT + |body|..]
  {
    header + palette + body + was[BODY_AT + |body|..]
  }

  lemma ThreeWrites(was: seq<byte>, header: seq<byte>, palette: seq<byte>, body: seq<byte>)
    requires |header| == HEAD_SIZE && |palette| == PALETTE_SIZE && BODY_AT + |body| <= |was|
    ensures Overlaid(Overlaid(Overlaid(was, 0, header), HEAD_SIZE, palette), BODY_AT, body) ==
            NewFrame(was, header, palette, body)
  {
  }

  class Screen {
    const pixels: nat
    const depth: nat
    const frame0: array<byte>
    const frame1: array<byte>
    var size0: nat
    var size1: nat
    var curFrame: nat

    ghost predicate Valid()
      reads this
    {
      && curFrame < 2 && frame0 != frame1
      && frame0.Length == frame1.Length == BufferSize(pixels, depth)
    }

    constructor (pixelCount: nat, pixelDepth: nat)
      ensures Valid() && fresh(frame0) && fresh(frame1)
      ensures pixels == pixelCount && depth == pixelDepth && curFrame == 0
    {
      pixels, depth := pixelCount, pixelDepth;
      frame0 := new byte[BufferSize(pixelCount, pixelDepth)](_ => 0);
      frame1 := new byte[BufferSize(pixelCount, pixelDepth)](_ => 0);
      size0, size1, curFrame := 0, 0, 0;
    }

    function FrameArray(id: nat): array<byte> {
      if id == 0 then frame0 else frame1
    }

    function GetNextFrameId(): nat
      reads this
    {
      if curFrame == 0 then 1 else 0
    }

    function GetFrameSize(): nat
      reads this
    {
      if curFrame == 0 then size0 else size1
    }

    method SwitchToNextFrame()
      requires Valid()
      modifies this`curFrame
      ensures Valid() && curFrame == old(GetNextFrameId()) == 1 - old(curFrame)
    {
      curFrame := curFrame + 1;
      if curFrame > 1 {
        curFrame := 0;
      }
    }

    /**
     * Fills the buffer that is not shown and then shows it. The frame shown before stays
     * whole, and on a screen of the wrong depth it stays shown as well.
     */
    method PrepareBMPFrame(header: seq<byte>, palette: seq<byte>, memory: seq<byte>) returns (ok: bool)
      requires Valid() && FrameFits(pixels, depth)
      requires |header| == HEAD_SIZE && |palette| == PALETTE_SIZE && |memory| == pixels * depth
      requires pixels == 0 || pixels >= LANES
      modifies this, FrameArray(GetNextFrameId())
      ensures Valid() && (ok <==> depth == 3 || depth == 4)
      ensures FrameArray(old(curFrame))[..] == old(FrameArray(curFrame)[..])
      ensures !ok ==> curFrame == old(curFrame) && GetFrameSize() == old(GetFrameSize())
      ensures ok ==>
                && curFrame == 1 - old(curFrame)
                && GetFrameSize() == 54 + 1024 + pixels
                && FrameArray(curFrame)[..] ==
                   NewFrame(old(FrameArray(GetNextFrameId())[..]), header, palette,
                            PixelIds(memory, depth, Converted(pixels)))
    {
      hide Overlaid, NewFrame, PixelIds, Converted;
      ConvertedFits(pixels);
      var dst := FrameArray(GetNextFrameId());
      WriteAt(dst, 0, header);
      WriteAt(dst, HEAD_SIZE, palette);
      if depth != 3 && depth != 4 {
        return false;
      }
      var converted := ConvertToPalette(dst, BODY_AT, memory, depth, pixels);
      ThreeWrites(old(dst[..]), header, palette, PixelIds(memory, depth, Converted(pixels)));
      if GetNextFrameId() == 0 {
        size0 := BODY_AT + pixels;
      } else {
        size1 := BODY_AT + pixels;
      }
      SwitchToNextFrame();
      ok := true;
    }
  }

  lemma ConvertedFits(n: nat)
    ensures Converted(n) <= n
  {
  }
}
