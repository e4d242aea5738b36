/**
 * Polynomials over GF(2) as bit strings, highest power first, and the bit-serial
 * division by x^16 + x^12 + x^5 + 1 that a 16-bit CRC register performs.
 */
module Gf2 {
  type Poly = seq<bool>

  function Xor(a: Poly, b: Poly): (c: Poly)
    requires |a| == |b|
    ensures |c| == |a|
  {
    seq(|a|, i requires 0 <= i < |a| => a[i] != b[i])
  }

  function Zero(n: nat): (z: Poly)
    ensures |z| == n
  {
    seq(n, _ => false)
  }

  /** x^12 + x^5 + 1: the generator without its leading x^16. */
  const TAIL: Poly :=
    [false, false, false, true, false, false, false, false,
     false, false, true, false, false, false, false, true]

  const GENERATOR: Poly := [true] + TAIL

  type Reg = r: Poly | |r| == 16 witness Zero(16)

  /** r(x) * x modulo the generator. */
  function Shift(r: Reg): Reg {
    if r[0] then Xor(r[1..] + [false], TAIL) else r[1..] + [false]
  }

  function Shifts(r: Reg, n: nat): Reg
    decreases n
  {
    if n == 0 then r else Shifts(Shift(r), n - 1)
  }

  /** One step of the division: the next message bit meets the top of the register. */
  function Feed(r: Reg, bit: bool): Reg {
    Shift(r[0 := r[0] != bit])
  }

  function FeedAll(r: Reg, bits: Poly): Reg
    decreases |bits|
  {
    if bits == [] then r else FeedAll(Feed(r, bits[0]), bits[1..])
  }

  // ----- the register is linear -----

  lemma ShiftLinear(a: Reg, b: Reg)
    ensures Shift(Xor(a, b)) == Xor(Shift(a), Shift(b))
  {
    assert |TAIL| == 16;
    forall i | 0 <= i < 16 ensures Shift(Xor(a, b))[i] == Xor(Shift(a), Shift(b))[i] {
    }
  }

  lemma {:induction false} ShiftsLinear(a: Reg, b: Reg, n: nat)
    ensures Shifts(Xor(a, b), n) == Xor(Shifts(a, n), Shifts(b, n))
    decreases n
  {
    if n > 0 {
      ShiftLinear(a, b);
      ShiftsLinear(Shift(a), Shift(b), n - 1);
    }
  }

  lemma {:induction false} FeedAllPlus(r: Reg, a: Poly, b: Poly)
    ensures FeedAll(r, a + b) == FeedAll(FeedAll(r, a), b)
    decreases |a|
  {
    if a == [] {
      assert a + b == b;
    } else {
      assert (a + b)[1..] == a[1..] + b;
      FeedAllPlus(Feed(r, a[0]), a[1..], b);
    }
  }

  /** A register whose top n bits are clear just moves up. */
  lemma {:induction false} RoomyMovesUp(r: Reg, n: nat)
    requires n <= 16 && r[..n] == Zero(n)
    ensures Shifts(r, n) == r[n..] + Zero(n)
    decreases n
  {
    if n > 0 {
      assert !r[..n][0];
      var s := Shift(r);
      assert s == r[1..] + [false];
      forall i | 0 <= i < n - 1 ensures s[i] == false {
        assert s[i] == r[i + 1] == r[..n][i + 1];
      }
      assert s[..n - 1] == Zero(n - 1);
      RoomyMovesUp(s, n - 1);
      assert s[n - 1..] + Zero(n - 1) == r[n..] + Zero(n);
    }
  }

  /** A message word on top of a register. */
  function Word(bits: Poly): Reg
    requires |bits| <= 16
  {
    bits + Zero(16 - |bits|)
  }

  /** Feeding up to 16 bits is the same as mixing them in at once and then shifting. */
  lemma {:induction false} FeedAllIsShifts(r: Reg, bits: Poly)
    requires |bits| <= 16
    ensures FeedAll(r, bits) == Shifts(Xor(r, Word(bits)), |bits|)
    decreases |bits|
  {
    if bits == [] {
      assert Xor(r, Word(bits)) == r;
    } else {
      var rest := bits[1..];
      var top := r[0 := r[0] != bits[0]];
      FeedAllIsShifts(Feed(r, bits[0]), rest);
      var below: Reg := [false] + Word(rest)[..15];
      assert Xor(r, Word(bits)) == Xor(top, below);
      ShiftLinear(top, below);
      assert Shift(below) == Word(rest);
    }
  }

  /**
   * Eight bits at a time: the low half of the register moves up, and what the high half
   * turns into depends on its sum with the byte alone.
   */
  lemma ByteAtOnce(r: Reg, bits: Poly)
    requires |bits| == 8
    ensures FeedAll(r, bits) == Xor(r[8..] + Zero(8), Shifts(Word(Xor(r[..8], bits)), 8))
  {
    var high, low := Word(Xor(r[..8], bits)), Zero(8) + r[8..];
    FeedAllIsShifts(r, bits);
    assert Xor(r, Word(bits)) == Xor(low, high);
    ShiftsLinear(low, high, 8);
    assert low[..8] == Zero(8) && low[8..] == r[8..];
    RoomyMovesUp(low, 8);
  }

  /** Only the register's own contents, fed to it, clear the register. */
  lemma ClearedIff(r: Reg, bits: Poly)
    requires |bits| == 16
    ensures FeedAll(r, bits) == Zero(16) <==> bits == r
  {
    FeedAllIsShifts(r, bits);
    assert Word(bits) == bits;
    assert Zero(16)[..16] == Zero(16);
    RoomyMovesUp(Zero(16), 16);
    assert Shifts(Zero(16), 16) == Zero(16);
    if FeedAll(r, bits) == Zero(16) {
      ShiftsInjective(Xor(r, bits), Zero(16), 16);
      forall i | 0 <= i < 16 ensures bits[i] == r[i] {
        assert Xor(r, bits)[i] == Zero(16)[i];
      }
    }
    if bits == r {
      assert Xor(r, bits) == Zero(16);
    }
  }

  lemma ClearedByBytesIff(r: Reg, high: Poly, low: Poly)
    requires |high| == |low| == 8
    ensures FeedAll(FeedAll(r, high), low) == Zero(16) <==> high == r[..8] && low == r[8..]
  {
    FeedAllPlus(r, high, low);
    ClearedIff(r, high + low);
    assert r == r[..8] + r[8..];
    assert (high + low)[..8] == high && (high + low)[8..] == low;
  }

  // ----- division -----

  /** Quotient of the division of bits * x^16, one bit for each message bit. */
  function Quotient(bits: Poly): (q: Poly)
    ensures |q| == |bits|
  {
    if bits == [] then []
    else
      var init, last := bits[..|bits| - 1], bits[|bits| - 1];
      Quotient(init) + [FeedAll(Zero(16), init)[0] != last]
  }

  /** q(x) * GENERATOR(x), by shift and add. */
  function TimesGenerator(q: Poly): (p: Poly)
    ensures |p| == |q| + 16
    decreases |q|
  {
    if q == [] then Zero(16)
    else ShiftAdd(TimesGenerator(q[..|q| - 1]), q[|q| - 1])
  }

  /** p(x) * x, plus the generator if the bit is set. */
  function ShiftAdd(p: Poly, bit: bool): (r: Poly)
    requires |p| >= 16
    ensures |r| == |p| + 1
  {
    if bit then Xor(p + [false], Zero(|p| - 16) + GENERATOR) else p + [false]
  }

  lemma {:induction false} TimesGeneratorAt(q: Poly, t: bool, i: nat)
    requires i < |q| + 17
    ensures TimesGenerator(q + [t])[i] ==
            ((if i < |q| + 16 then TimesGenerator(q)[i] else false)
             != (t && i >= |q| && GENERATOR[i - |q|]))
  {
    assert (q + [t])[..|q|] == q;
    ShiftAddAt(TimesGenerator(q), t, i);
  }

  lemma ShiftAddAt(p: Poly, bit: bool, i: nat)
    requires 16 <= |p| && i <= |p|
    ensures ShiftAdd(p, bit)[i] ==
            ((if i < |p| then p[i] else false) != (bit && i >= |p| - 16 && GENERATOR[i - (|p| - 16)]))
  {
    assert |GENERATOR| == 17;
  }

  lemma FeedAt(r: Reg, bit: bool, j: nat)
    requires j < 16
    ensures Feed(r, bit)[j] == ((if j < 15 then r[j + 1] else false) != (r[0] != bit && TAIL[j]))
  {
    assert |TAIL| == 16;
  }

  /** m(x) * x^16 == q(x) * GENERATOR(x) + r(x). */
  ghost predicate Divides(m: Poly, q: Poly, r: Reg) {
    |m| == |q| && m + Zero(16) == Xor(TimesGenerator(q), Zero(|q|) + r)
  }

  lemma {:induction false} DivisionStep(q: Poly, r: Reg, bit: bool, m: Poly)
    requires Divides(m, q, r)
    ensures Divides(m + [bit], q + [r[0] != bit], Feed(r, bit))
  {
    var n, t, f := |q|, r[0] != bit, Feed(r, bit);
    var left := (m + [bit]) + Zero(16);
    var right := Xor(TimesGenerator(q + [t]), Zero(n + 1) + f);
    forall i | 0 <= i < n + 17 ensures left[i] == right[i] {
      TimesGeneratorAt(q, t, i);
      if i < n + 16 {
        assert (m + Zero(16))[i] == (TimesGenerator(q)[i] != (Zero(n) + r)[i]);
      }
      if i > n {
        assert GENERATOR[i - n] == TAIL[i - n - 1];
        FeedAt(r, bit, i - n - 1);
      }
    }
  }

  /**
   * The register after a message is the remainder of message * x^16: adding it to a
   * multiple of the generator gives message * x^16, and it has degree below 16.
   */
  lemma {:induction false} RegisterIsRemainder(bits: Poly)
    ensures Divides(bits, Quotient(bits), FeedAll(Zero(16), bits))
  {
    if bits == [] {
      assert bits + Zero(16) == Xor(TimesGenerator([]), Zero(0) + Zero(16));
    } else {
      var init, last := bits[..|bits| - 1], bits[|bits| - 1];
      RegisterIsRemainder(init);
      DivisionStep(Quotient(init), FeedAll(Zero(16), init), last, init);
      assert init + [last] == bits;
      FeedAllSnoc(Zero(16), init, last);
    }
  }

  lemma {:induction false} FeedAllSnoc(r: Reg, bits: Poly, bit: bool)
    ensures FeedAll(r, bits + [bit]) == Feed(FeedAll(r, bits), bit)
  {
    FeedAllPlus(r, bits, [bit]);
    assert [bit][1..] == [];
    assert FeedAll(FeedAll(r, bits), [bit]) == FeedAll(Feed(FeedAll(r, bits), bit), []);
  }

  /** Undoing the last step of a division. */
  lemma {:induction false} DivisionUnstep(m: Poly, q: Poly, r: Reg) returns (r0: Reg)
    requires Divides(m, q, r) && |m| > 0
    ensures Divides(m[..|m| - 1], q[..|q| - 1], r0)
    ensures q[|q| - 1] == (r0[0] != m[|m| - 1])
  {
    var n := |m| - 1;
    var m0, q0, t := m[..n], q[..n], q[n];
    assert q == q0 + [t];
    var diff := Xor(m0 + Zero(16), TimesGenerator(q0));
    r0 := diff[n..];
    forall i | 0 <= i <= n
      ensures m[i] == (TimesGenerator(q0)[i] != (t && i == n))
    {
      TimesGeneratorAt(q0, t, i);
      assert (m + Zero(16))[i] == Xor(TimesGenerator(q), Zero(n + 1) + r)[i];
    }
    var back := Xor(TimesGenerator(q0), Zero(n) + r0);
    forall i | 0 <= i < n + 16 ensures (m0 + Zero(16))[i] == back[i] {
      if i < n {
        assert m0[i] == m[i];
      } else {
        assert r0[i - n] == diff[i];
      }
    }
    assert r0[0] == diff[n];
  }

  lemma {:induction false} QuotientSnoc(m: Poly, bit: bool)
    ensures Quotient(m + [bit]) == Quotient(m) + [FeedAll(Zero(16), m)[0] != bit]
  {
    assert (m + [bit])[..|m|] == m;
  }

  lemma RemainderOfNothing(q: Poly, r: Reg)
    requires Divides([], q, r)
    ensures q == Quotient([]) && r == FeedAll(Zero(16), [])
  {
    assert r == Xor(TimesGenerator(q), Zero(0) + r) == [] + Zero(16);
  }

  /** There is only one quotient and one remainder below x^16. */
  lemma {:induction false} RemainderUnique(m: Poly, q: Poly, r: Reg)
    requires Divides(m, q, r)
    ensures q == Quotient(m) && r == FeedAll(Zero(16), m)
    decreases |m|
  {
    if m == [] {
      RemainderOfNothing(q, r);
    } else {
      hide Xor, TimesGenerator, FeedAll, Feed, Quotient;
      var m0, q0, bit := m[..|m| - 1], q[..|m| - 1], m[|m| - 1];
      var r0 := DivisionUnstep(m, q, r);
      RemainderUnique(m0, q0, r0);
      assert m == m0 + [bit] && q == q0 + [r0[0] != bit];
      DivisionStep(q0, r0, bit, m0);
      SameRemainder(m, q, r, Feed(r0, bit));
      FeedAllSnoc(Zero(16), m0, bit);
      QuotientSnoc(m0, bit);
    }
  }

  lemma {:induction false} SameRemainder(m: Poly, q: Poly, r1: Reg, r2: Reg)
    requires Divides(m, q, r1) && Divides(m, q, r2)
    ensures r1 == r2
  {
    var n := |q|;
    forall j | 0 <= j < 16 ensures r1[j] == r2[j] {
      assert Xor(TimesGenerator(q), Zero(n) + r1)[n + j] == Xor(TimesGenerator(q), Zero(n) + r2)[n + j];
    }
  }

  // ----- error detection -----

  lemma ShiftInjective(a: Reg, b: Reg)
    requires Shift(a) == Shift(b)
    ensures a == b
  {
    assert TAIL[15] && |TAIL| == 16;
    assert Shift(a)[15] == a[0] && Shift(b)[15] == b[0];
    forall i | 0 < i < 16 ensures a[i] == b[i] {
      assert Shift(a)[i - 1] == (a[i] != (a[0] && TAIL[i - 1]));
      assert Shift(b)[i - 1] == (b[i] != (b[0] && TAIL[i - 1]));
    }
  }

  lemma {:induction false} ShiftsInjective(a: Reg, b: Reg, n: nat)
    requires Shifts(a, n) == Shifts(b, n)
    ensures a == b
    decreases n
  {
    if n > 0 {
      ShiftsInjective(Shift(a), Shift(b), n - 1);
      ShiftInjective(a, b);
    }
  }

  /** Different registers stay different whatever common bits follow. */
  lemma {:induction false} FeedAllInjective(a: Reg, b: Reg, bits: Poly)
    requires FeedAll(a, bits) == FeedAll(b, bits)
    ensures a == b
    decreases |bits|
  {
    if bits != [] {
      FeedAllInjective(Feed(a, bits[0]), Feed(b, bits[0]), bits[1..]);
      ShiftInjective(a[0 := a[0] != bits[0]], b[0 := b[0] != bits[0]]);
      assert forall i :: 0 <= i < 16 ==> a[i] == b[i];
    }
  }

  /** Different words of at most 16 bits lead one register to different registers. */
  lemma {:induction false} WordsTellApart(r: Reg, u: Poly, v: Poly)
    requires |u| == |v| <= 16 && FeedAll(r, u) == FeedAll(r, v)
    ensures u == v
  {
    FeedAllIsShifts(r, u);
    FeedAllIsShifts(r, v);
    ShiftsInjective(Xor(r, Word(u)), Xor(r, Word(v)), |u|);
    forall i | 0 <= i < |u| ensures u[i] == v[i] {
      assert Xor(r, Word(u))[i] == Xor(r, Word(v))[i];
    }
  }

  /** A change inside a window of at most 16 bits always changes the register. */
  lemma {:induction false} BurstDetected(r: Reg, before: Poly, u: Poly, v: Poly, after: Poly)
    requires |u| == |v| <= 16
    requires FeedAll(r, before + u + after) == FeedAll(r, before + v + after)
    ensures u == v
  {
    FeedAllPlus(r, before + u, after);
    FeedAllPlus(r, before + v, after);
    FeedAllInjective(FeedAll(r, before + u), FeedAll(r, before + v), after);
    FeedAllPlus(r, before, u);
    FeedAllPlus(r, before, v);
    WordsTellApart(FeedAll(r, before), u, v);
  }

  ghost predicate SameOutside(a: Poly, b: Poly, from: nat, to: nat) {
    |a| == |b| && forall j :: 0 <= j < |a| && !(from <= j < to) ==> a[j] == b[j]
  }

  lemma EndsShared(a: Poly, b: Poly, from: nat, lo: nat, hi: nat)
    requires SameOutside(a, b, from, from + 16) && lo <= hi <= |a|
    requires lo <= from && (hi == from + 16 || hi == |a|)
    ensures |a| == |b| && a[..lo] == b[..lo] && a[hi..] == b[hi..]
  {
  }

  lemma {:induction false} WindowDetected(r: Reg, p: Poly, q: Poly, from: nat)
    requires SameOutside(p, q, from, from + 16) && FeedAll(r, p) == FeedAll(r, q)
    ensures p == q
  {
    hide FeedAll, SameOutside;
    var lo := if from < |p| then from else |p|;
    var hi := if from + 16 < |p| then from + 16 else |p|;
    EndsShared(p, q, from, lo, hi);
    assert p == p[..lo] + p[lo..hi] + p[hi..];
    assert q == q[..lo] + q[lo..hi] + q[hi..];
    BurstDetected(r, p[..lo], p[lo..hi], q[lo..hi], p[hi..]);
  }

  /** 16 bits are the limit: adding the generator itself goes unnoticed anywhere. */
  lemma {:induction false} GeneratorUndetected(r: Reg, before: Poly, u: Poly, after: Poly)
    requires |u| == 17
    ensures FeedAll(r, before + u + after) == FeedAll(r, before + Xor(u, GENERATOR) + after)
  {
    var v := Xor(u, GENERATOR);
    var s := FeedAll(r, before);
    FeedAllPlus(r, before + u, after);
    FeedAllPlus(r, before + v, after);
    FeedAllPlus(r, before, u);
    FeedAllPlus(r, before, v);
    GeneratorCancels(s, u);
  }

  lemma {:induction false} GeneratorCancels(s: Reg, u: Poly)
    requires |u| == 17
    ensures FeedAll(s, u) == FeedAll(s, Xor(u, GENERATOR))
  {
    assert |TAIL| == 16;
    var v := Xor(u, GENERATOR);
    assert u == [u[0]] + u[1..] && v == [!u[0]] + v[1..];
    assert v[1..] == Xor(u[1..], TAIL);
    FeedAllIsShifts(Feed(s, u[0]), u[1..]);
    FeedAllIsShifts(Feed(s, v[0]), v[1..]);
    assert Word(u[1..]) == u[1..] && Word(v[1..]) == v[1..];
    TailCancels(s, u[0], u[1..]);
  }

  lemma TailCancels(s: Reg, bit: bool, rest: Poly)
    requires |rest| == 16
    ensures Xor(Feed(s, bit), rest) == Xor(Feed(s, !bit), Xor(rest, TAIL))
  {
    forall j | 0 <= j < 16 ensures Xor(Feed(s, bit), rest)[j] == Xor(Feed(s, !bit), Xor(rest, TAIL))[j] {
      FeedAt(s, bit, j);
      FeedAt(s, !bit, j);
    }
  }
}
