/**
 * ymodem.cpp, class Crc: the table-driven CRC-16 with polynomial 0x1021. A 16-bit word
 * is given by its bits, most significant first, so that the shifts and exclusive-ors of
 * the code are those of Gf2. The specification of Compute is the bit-serial division.
 */
module Crc16 {
  import opened Bytes
  import opened Gf2

  const TABLE_SIZE: nat := 256
  const BYTE_BITS: nat := 8

  // ----- numbers and their bits -----

  function Pow2(n: nat): (p: nat)
    ensures p > 0
  {
    if n == 0 then 1 else 2 * Pow2(n - 1)
  }

  function ToBits(v: nat, n: nat): (p: Poly)
    ensures |p| == n
    decreases n
  {
    if n == 0 then [] else ToBits(v / 2, n - 1) + [v % 2 == 1]
  }

  function ToNat(p: Poly): nat {
    if p == [] then 0 else 2 * ToNat(p[..|p| - 1]) + if p[|p| - 1] then 1 else 0
  }

  lemma {:induction false} ToNatBound(p: Poly)
    ensures ToNat(p) < Pow2(|p|)
  {
    if p != [] {
      ToNatBound(p[..|p| - 1]);
    }
  }

  lemma {:induction false} ToBitsToNat(p: Poly)
    ensures ToBits(ToNat(p), |p|) == p
  {
    if p != [] {
      ToBitsToNat(p[..|p| - 1]);
    }
  }

  lemma {:induction false} ToNatToBits(v: nat, n: nat)
    requires v < Pow2(n)
    ensures ToNat(ToBits(v, n)) == v
    decreases n
  {
    if n > 0 {
      ToNatToBits(v / 2, n - 1);
      assert ToBits(v, n)[..n - 1] == ToBits(v / 2, n - 1);
    }
  }

  lemma DivideTwice(v: nat, p: nat)
    requires p > 0
    ensures v / 2 / p == v / (2 * p)
  {
    var q, r := v / 2 / p, v / 2 % p;
    assert v / 2 == p * q + r;
    assert v == 2 * p * q + (2 * r + v % 2);
    QuotientIs(v, 2 * p, q, 2 * r + v % 2);
  }

  lemma QuotientIs(v: nat, d: nat, q: nat, r: nat)
    requires r < d && v == d * q + r
    ensures v / d == q
  {
    var k := v / d;
    assert v == d * k + v % d;
    if k < q {
      OneMore(d, k, q);
    } else if q < k {
      OneMore(d, q, k);
    }
  }

  lemma OneMore(d: nat, a: nat, b: nat)
    requires a < b
    ensures d * a + d <= d * b
  {
    var c := b - a - 1;
    assert d * b == d * a + d + d * c;
  }

  /** Bit i from the left is worth 2^(n - 1 - i). */
  lemma {:induction false} ToBitsAt(v: nat, n: nat, i: nat)
    requires i < n
    ensures ToBits(v, n)[i] <==> v / Pow2(n - 1 - i) % 2 == 1
    decreases n
  {
    if i < n - 1 {
      ToBitsAt(v / 2, n - 1, i);
      DivideTwice(v, Pow2(n - 2 - i));
    }
  }

  function ByteBits(d: byte): (p: Poly)
    ensures |p| == 8
  {
    ToBits(d, BYTE_BITS)
  }

  function ByteOf(p: Poly): (d: byte)
    requires |p| == 8
  {
    assert ToNat(p) < 256 by {
      ToNatBound(p);
      assert Pow2(8) == 256;
    }
    ToNat(p)
  }

  lemma ByteRoundTrip(p: Poly, d: byte)
    requires |p| == 8
    ensures ByteBits(ByteOf(p)) == p && ByteOf(ByteBits(d)) == d
  {
    ToBitsToNat(p);
    assert Pow2(8) == 256;
    ToNatToBits(d, BYTE_BITS);
  }

  /** kPoly = 0x1021 holds the lower powers of the generator. */
  lemma PolyIsTail(i: nat)
    requires i < 16
    ensures TAIL[i] <==> 0x1021 / Pow2(15 - i) % 2 == 1
  {
    assert Pow2(12) == 0x1000 && Pow2(5) == 0x20 && Pow2(15) == 0x8000;
  }

  /** The message as one bit string. */
  function Bits(data: seq<byte>): (p: Poly)
    ensures |p| == 8 * |data|
  {
    if data == [] then [] else Bits(data[..|data| - 1]) + ByteBits(data[|data| - 1])
  }

  // ----- the specification -----

  /** The register after a message, bit by bit from an initial value. */
  function Register(ini: Reg, data: seq<byte>): Reg {
    FeedAll(ini, Bits(data))
  }

  function Swap(r: Reg): Reg {
    r[8..] + r[..8]
  }

  /** A 16-bit value as SendScalar puts it on the wire of a little-endian host. */
  function WireBytes(value: Reg): seq<byte> {
    [ByteOf(value[8..]), ByteOf(value[..8])]
  }

  // ----- the implementation -----

  function Up(r: Reg): Reg {
    r[1..] + [false]
  }

  function Entry(i: byte): Reg {
    Shifts(Word(ByteBits(i)), BYTE_BITS)
  }

  class Crc {
    const table: array<Reg>
    const iniValue: Reg

    ghost predicate Valid()
      reads table
    {
      table.Length == TABLE_SIZE && forall i: byte :: table[i] == Entry(i)
    }

    constructor (val: Reg)
      ensures Valid() && iniValue == val && fresh(table)
    {
      iniValue := val;
      table := new Reg[TABLE_SIZE];
      new;
      var i := 0;
      while i < TABLE_SIZE
        invariant 0 <= i <= TABLE_SIZE
        invariant forall k: nat :: k < i ==> table[k] == Entry(k)
      {
        table[i] := ComputeEntry(i);
        i := i + 1;
      }
    }

    static method ComputeEntry(i: byte) returns (temp: Reg)
      ensures temp == Entry(i)
    {
      temp := Zero(16);
      var a: Reg := Word(ByteBits(i));
      var j := 0;
      assert Xor(temp, a) == a;
      while j < BYTE_BITS
        invariant 0 <= j <= BYTE_BITS
        invariant Shifts(Xor(temp, a), BYTE_BITS - j) == Entry(i)
        invariant a[BYTE_BITS - j..] == Zero(BYTE_BITS + j)
      {
        TableRound(temp, a);
        RoomBelow(a, BYTE_BITS - j);
        if Xor(temp, a)[0] {
          temp := Xor(Up(temp), TAIL);
        } else {
          temp := Up(temp);
        }
        a := Up(a);
        j := j + 1;
      }
      assert a == Zero(16);
      assert Xor(temp, a) == temp;
    }

    /** The table-driven loop leaves the register of the bit-serial division, byte-swapped. */
    method Compute(data: seq<byte>) returns (value: Reg)
      requires Valid()
      ensures value == Swap(Register(iniValue, data))
      ensures value[..8] == Register(iniValue, data)[8..] && value[8..] == Register(iniValue, data)[..8]
    {
      hide FeedAll, Shifts, Bits, ByteBits, ByteOf, Xor;
      assert data[..0] == [];
      RegisterOfNothing(iniValue);
      var crc := iniValue;
      var i := 0;
      while i < |data|
        invariant 0 <= i <= |data|
        invariant crc == Register(iniValue, data[..i])
      {
        var k := ByteOf(Xor(crc[..8], ByteBits(data[i])));
        RegisterSnoc(iniValue, data[..i], data[i]);
        assert data[..i + 1] == data[..i] + [data[i]];
        ByteRoundTrip(Xor(crc[..8], ByteBits(data[i])), k);
        ByteAtOnce(crc, ByteBits(data[i]));
        crc := Xor(crc[8..] + Zero(8), table[k]);
        i := i + 1;
      }
      assert data[..i] == data;
      value := crc[8..] + crc[..8];
    }
  }

  lemma TableRound(temp: Reg, a: Reg)
    ensures Xor(if Xor(temp, a)[0] then Xor(Up(temp), TAIL) else Up(temp), Up(a)) == Shift(Xor(temp, a))
  {
    assert |TAIL| == 16;
  }

  lemma RoomBelow(a: Reg, n: nat)
    requires 0 < n <= 16 && a[n..] == Zero(16 - n)
    ensures Up(a)[n - 1..] == Zero(16 - n + 1)
  {
    assert Up(a)[n - 1..] == a[n..] + [false];
  }

  lemma RegisterOfNothing(ini: Reg)
    ensures Register(ini, []) == ini
  {
  }

  lemma {:induction false} RegisterSnoc(ini: Reg, data: seq<byte>, d: byte)
    ensures Register(ini, data + [d]) == FeedAll(Register(ini, data), ByteBits(d))
  {
    assert (data + [d])[..|data|] == data;
    FeedAllPlus(ini, Bits(data), ByteBits(d));
  }

  /**
   * For every message the register, started at zero, is the one remainder of
   * message * x^16 by x^16 + x^12 + x^5 + 1.
   */
  lemma CrcIsRemainder(data: seq<byte>, q: Poly, r: Reg)
    ensures Divides(Bits(data), q, r) <==>
            q == Quotient(Bits(data)) && r == Register(Zero(16), data)
  {
    RegisterIsRemainder(Bits(data));
    if Divides(Bits(data), q, r) {
      RemainderUnique(Bits(data), q, r);
    }
  }

  // ----- what the CRC detects -----

  lemma ByteBitsInjective(a: byte, b: byte)
    requires ByteBits(a) == ByteBits(b)
    ensures a == b
  {
    ByteRoundTrip(ByteBits(a), a);
    ByteRoundTrip(ByteBits(b), b);
  }

  lemma EighthOfSum(high: Poly, low: Poly, i: nat)
    requires |low| == 8 && 8 * i <= |high| && |high| % 8 == 0
    ensures (high + low)[8 * i..8 * i + 8] == if 8 * i < |high| then high[8 * i..8 * i + 8] else low
  {
  }

  lemma {:induction false} BitsAt(data: seq<byte>, i: nat)
    requires i < |data|
    ensures Bits(data)[8 * i..8 * i + 8] == ByteBits(data[i])
  {
    var init := data[..|data| - 1];
    EighthOfSum(Bits(init), ByteBits(data[|data| - 1]), i);
    if i < |data| - 1 {
      BitsAt(init, i);
    }
  }

  lemma {:induction false} BitsInjective(a: seq<byte>, b: seq<byte>)
    requires |a| == |b| && Bits(a) == Bits(b)
    ensures a == b
  {
    forall i | 0 <= i < |a| ensures a[i] == b[i] {
      BitsAt(a, i);
      BitsAt(b, i);
      ByteBitsInjective(a[i], b[i]);
    }
  }

  lemma SwapInjective(a: Reg, b: Reg)
    requires Swap(a) == Swap(b)
    ensures a == b
  {
    assert Swap(Swap(a)) == a && Swap(Swap(b)) == b;
  }

  /**
   * Two payloads that differ, but only inside a window of 16 bits, never have the same
   * CRC.
   */
  lemma BurstErrorDetected(ini: Reg, a: seq<byte>, b: seq<byte>, from: nat)
    requires |a| == |b| && a != b && SameOutside(Bits(a), Bits(b), from, from + 16)
    ensures Swap(Register(ini, a)) != Swap(Register(ini, b))
  {
    if Swap(Register(ini, a)) == Swap(Register(ini, b)) {
      SwapInjective(Register(ini, a), Register(ini, b));
      WindowDetected(ini, Bits(a), Bits(b), from);
      BitsInjective(a, b);
    }
  }

  /** Two trailing bytes bring the CRC to zero exactly when they are the CRC as sent. */
  lemma CheckIsZeroIff(ini: Reg, data: seq<byte>, h: byte, l: byte)
    ensures Swap(Register(ini, data + [h, l])) == Zero(16)
            <==> [h, l] == WireBytes(Swap(Register(ini, data)))
  {
    var r := Register(ini, data);
    assert data + [h, l] == data + [h] + [l];
    RegisterSnoc(ini, data, h);
    RegisterSnoc(ini, data + [h], l);
    ClearedByBytesIff(r, ByteBits(h), ByteBits(l));
    SwapZeroIff(Register(ini, data + [h, l]));
    SentHighFirst(r);
    ByteRoundTrip(r[..8], h);
    ByteRoundTrip(r[8..], l);
  }

  lemma SentHighFirst(r: Reg)
    ensures WireBytes(Swap(r)) == [ByteOf(r[..8]), ByteOf(r[8..])]
  {
    assert Swap(r)[8..] == r[..8] && Swap(r)[..8] == r[8..];
  }

  lemma SwapZeroIff(r: Reg)
    ensures Swap(r) == Zero(16) <==> r == Zero(16)
  {
    assert Swap(Swap(r)) == r;
    assert Swap(Zero(16)) == Zero(16);
  }
}
