/** Byte-level vocabulary shared by the models of the C++ utilities. */
module Bytes {
  type byte = x: int | 0 <= x < 256
  type uint16 = x: int | 0 <= x < 0x1_0000

  datatype Option<+T> = None | Some(value: T)

  function Min(a: nat, b: nat): nat {
    if a <= b then a else b
  }

  function CeilDiv(a: nat, b: nat): nat
    requires b > 0
  {
    (a + b - 1) / b
  }

  function Zeros(n: nat): seq<byte> {
    seq(n, _ => 0)
  }

  function Repeat<T>(x: T, n: nat): (s: seq<T>)
    ensures |s| == n
  {
    seq(n, _ => x)
  }

  /** The state of a buffer after what lies from `off` on has been replaced. */
  function Overlaid<T>(data: seq<T>, off: nat, part: seq<T>): (r: seq<T>)
    requires off + |part| <= |data|
    ensures |r| == |data|
  {
    data[..off] + part + data[off + |part|..]
  }

  /** The two bytes of a 16-bit value, most significant first. */
  function BigEndian16(v: uint16): (s: seq<byte>)
    ensures |s| == 2 && 256 * (s[0] as int) + s[1] == v
  {
    [v / 256, v % 256]
  }

  function FromBigEndian16(hi: byte, lo: byte): uint16 {
    hi * 256 + lo
  }

  function Concat<T>(parts: seq<seq<T>>): seq<T> {
    if parts == [] then [] else Concat(parts[..|parts| - 1]) + parts[|parts| - 1]
  }
}
