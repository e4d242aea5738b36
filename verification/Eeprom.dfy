/**
 * ttyusb_test.cpp: a table of bit fields packed into the bytes and little-endian words of
 * an EEPROM image, closed by an xor-rotate checksum in the last word.
 */
module Eeprom {

  const UNSET: bv32 := 0xFFFF_FFFF

  /** An int32 is given by its 32 bits; -1 marks a field without a value. */
  datatype Field = Field(addr: nat, offs: bv5, mask: bv32, value: bv32)

  datatype Kind = ByteField | WordField | Ignored

  /** The signed comparisons of the mask with 0xFF and 0xFFFF. */
  function KindOfMask(mask: bv32): Kind {
    if mask <= 0xFF || mask >= 0x8000_0000 then ByteField
    else if mask <= 0xFFFF then WordField
    else Ignored
  }

  function KindOf(f: Field): Kind {
    KindOfMask(f.mask)
  }

  function Width(f: Field): nat {
    match KindOf(f)
    case ByteField => 1
    case WordField => 2
    case Ignored => 0
  }

  /** The guard compares the bit offset, not the address, with the size of the image. */
  predicate Skipped(f: Field, size: nat) {
    f.offs as int >= size
  }

  predicate Written(f: Field, size: nat) {
    !Skipped(f, size) && f.value != UNSET
  }

  ghost predicate InBounds(fields: seq<Field>, length: nat) {
    forall i :: 0 <= i < |fields| ==> fields[i].addr + Width(fields[i]) <= length
  }

  // ----- the bits a field owns in byte j of the image -----

  function Shl(x: bv32, offs: bv5): bv32 {
    x << offs
  }

  predicate Within32(value: bv32, mask: bv32) {
    value & !mask == 0
  }

  function Low(x: bv32): bv8 {
    (x & 0xFF) as bv8
  }

  function High(x: bv32): bv8 {
    ((x >> 8) & 0xFF) as bv8
  }

  function Part(f: Field, x: bv32, j: nat): bv8 {
    match KindOf(f)
    case ByteField => if j == f.addr then Low(x) else 0
    case WordField => if j == f.addr then Low(x) else if j == f.addr + 1 then High(x) else 0
    case Ignored => 0
  }

  function MaskAt(f: Field, j: nat): bv8 {
    Part(f, Shl(f.mask, f.offs), j)
  }

  function ValueAt(f: Field, j: nat): bv8 {
    Part(f, Shl(f.value, f.offs), j)
  }

  function Put(b: bv8, mask: bv8, value: bv8): bv8 {
    (b & !mask) | value
  }

  function And(a: bv8, b: bv8): bv8 {
    a & b
  }

  function Or(a: bv8, b: bv8): bv8 {
    a | b
  }

  predicate Within(value: bv8, mask: bv8) {
    value & !mask == 0
  }

  predicate Apart(a: bv8, b: bv8) {
    a & b == 0
  }

  /** One field laid over an image. */
  function Applied(data: seq<bv8>, f: Field, size: nat): (r: seq<bv8>)
    ensures |r| == |data|
  {
    if Written(f, size)
    then seq(|data|, j requires 0 <= j < |data| => Put(data[j], MaskAt(f, j), ValueAt(f, j)))
    else data
  }

  function AppliedAll(data: seq<bv8>, fields: seq<Field>, size: nat): (r: seq<bv8>)
    ensures |r| == |data|
  {
    if fields == [] then data
    else Applied(AppliedAll(data, fields[..|fields| - 1], size), fields[|fields| - 1], size)
  }

  // ----- the code -----

  /** A little-endian word. */
  function Word(lo: bv8, hi: bv8): bv16 {
    (lo as bv16) | ((hi as bv16) << 8)
  }

  function WordAt(data: seq<bv8>, at: nat): bv16
    requires at + 1 < |data|
  {
    Word(data[at], data[at + 1])
  }

  /** The bits of a block that a mask selects, moved to the bottom. */
  function Extract(block: bv32, offs: bv5, mask: bv32): bv32 {
    (block >> offs) & mask
  }

  /** The value Decode reads for one field. */
  function ReadField(data: seq<bv8>, f: Field): bv32
    requires f.addr + Width(f) <= |data|
  {
    match KindOf(f)
    case ByteField => Extract(data[f.addr] as bv32, f.offs, f.mask)
    case WordField => Extract(WordAt(data, f.addr) as bv32, f.offs, f.mask)
    case Ignored => f.value
  }

  function Decoded(data: seq<bv8>, f: Field, size: nat): Field
    requires f.addr + Width(f) <= |data|
  {
    if Skipped(f, size) then f else f.(value := ReadField(data, f))
  }

  lemma BytePut(b: bv8, mask: bv32, value: bv32)
    ensures (((b as bv32 & !mask) | value) & 0xFF) as bv8 == Put(b, Low(mask), Low(value))
  {
  }

  lemma WordPut(lo: bv8, hi: bv8, mask: bv32, value: bv32)
    ensures
      var block := Word(lo, hi);
      var word := (((block as bv32 & !mask) | value) & 0xFFFF) as bv16;
      && (word & 0xFF) as bv8 == Put(lo, Low(mask), Low(value))
      && (word >> 8) as bv8 == Put(hi, High(mask), High(value))
  {
  }

  lemma PutNothing(b: bv8)
    ensures Put(b, 0, 0) == b
  {
  }

  // ----- the image after all fields -----

  /** The union of the masks, or values, of the fields written, in byte j. */
  function Masks(fields: seq<Field>, size: nat, j: nat): bv8 {
    if fields == [] then 0
    else
      var rest, f := Masks(fields[..|fields| - 1], size, j), fields[|fields| - 1];
      if Written(f, size) then Or(rest, MaskAt(f, j)) else rest
  }

  function Values(fields: seq<Field>, size: nat, j: nat): bv8 {
    if fields == [] then 0
    else
      var rest, f := Values(fields[..|fields| - 1], size, j), fields[|fields| - 1];
      if Written(f, size) then Or(rest, ValueAt(f, j)) else rest
  }

  ghost predicate Disjoint(f: Field, g: Field) {
    forall j: nat :: Apart(MaskAt(f, j), MaskAt(g, j))
  }

  ghost predicate PairwiseDisjoint(fields: seq<Field>) {
    forall i, k :: 0 <= i < k < |fields| ==> Disjoint(fields[i], fields[k])
  }

  /** Nothing of the mask is shifted out of the byte or word it lives in. */
  predicate MaskFits(f: Field) {
    match KindOf(f)
    case ByteField => f.mask <= 0xFF && f.offs <= 7 && Shl(f.mask, f.offs) <= 0xFF
    case WordField => f.offs <= 15 && Shl(f.mask, f.offs) <= 0xFFFF
    case Ignored => false
  }

  predicate ValueFits(f: Field) {
    f.value == UNSET || Within32(f.value, f.mask)
  }

  ghost predicate WellFormed(fields: seq<Field>) {
    && PairwiseDisjoint(fields)
    && forall i :: 0 <= i < |fields| ==> MaskFits(fields[i]) && ValueFits(fields[i])
  }

  /** No written field owns any of these bits of byte j. */
  ghost predicate Uncovered(fields: seq<Field>, size: nat, j: nat, bits: bv8) {
    forall i :: 0 <= i < |fields| && Written(fields[i], size) ==> Apart(MaskAt(fields[i], j), bits)
  }

  lemma {:induction false} WellFormedInit(fields: seq<Field>)
    requires WellFormed(fields) && fields != []
    ensures WellFormed(fields[..|fields| - 1])
  {
    hide Disjoint, MaskFits, ValueFits;
    var init := fields[..|fields| - 1];
    forall i, k | 0 <= i < k < |init| ensures Disjoint(init[i], init[k]) {
      assert Disjoint(fields[i], fields[k]);
    }
  }

  lemma {:induction false} LastApart(fields: seq<Field>, size: nat, j: nat)
    requires WellFormed(fields) && fields != []
    ensures Uncovered(fields[..|fields| - 1], size, j, MaskAt(fields[|fields| - 1], j))
  {
    hide MaskAt, Apart, Written;
    var init, f := fields[..|fields| - 1], fields[|fields| - 1];
    forall i | 0 <= i < |init| && Written(init[i], size) ensures Apart(MaskAt(init[i], j), MaskAt(f, j)) {
      assert Disjoint(fields[i], fields[|fields| - 1]);
    }
  }

  lemma ShiftedWithin(value: bv32, mask: bv32, offs: bv5)
    requires Within32(value, mask)
    ensures Within32(Shl(value, offs), Shl(mask, offs))
  {
  }

  lemma LowHighWithin(x: bv32, m: bv32)
    requires Within32(x, m)
    ensures Within(Low(x), Low(m)) && Within(High(x), High(m)) && Within(0, 0)
  {
  }

  lemma PartWithin(f: Field, x: bv32, m: bv32, j: nat)
    requires Within32(x, m)
    ensures Within(Part(f, x, j), Part(f, m, j))
  {
    hide Low, High, Within, Within32, KindOf;
    LowHighWithin(x, m);
  }

  lemma ValueWithinMask(f: Field, j: nat)
    requires Within32(f.value, f.mask)
    ensures Within(ValueAt(f, j), MaskAt(f, j))
  {
    hide Part, Within, Within32, Shl;
    ShiftedWithin(f.value, f.mask, f.offs);
    PartWithin(f, Shl(f.value, f.offs), Shl(f.mask, f.offs), j);
  }

  lemma OrWithin(v: bv8, m: bv8, v': bv8, m': bv8)
    requires Within(v, m) && Within(v', m')
    ensures Within(Or(v, v'), Or(m, m'))
  {
  }

  lemma OrApart(m: bv8, m': bv8, k: bv8)
    requires Apart(m, k) && Apart(m', k)
    ensures Apart(Or(m, m'), k)
  {
  }

  lemma NoBits(k: bv8)
    ensures Apart(0, k) && Within(0, 0)
  {
  }

  lemma PutTwice(b: bv8, m: bv8, v: bv8, m': bv8, v': bv8)
    requires Within(v, m) && Apart(m, m')
    ensures Put(Put(b, m, v), m', v') == Put(b, Or(m, m'), Or(v, v'))
  {
  }

  lemma {:induction false} ValuesWithinMasks(fields: seq<Field>, size: nat, j: nat)
    requires forall i :: 0 <= i < |fields| ==> ValueFits(fields[i])
    ensures Within(Values(fields, size, j), Masks(fields, size, j))
  {
    hide MaskAt, ValueAt, Within, Or;
    NoBits(0);
    if fields != [] {
      var init, f := fields[..|fields| - 1], fields[|fields| - 1];
      ValuesWithinMasks(init, size, j);
      if Written(f, size) {
        ValueWithinMask(f, j);
        OrWithin(Values(init, size, j), Masks(init, size, j), ValueAt(f, j), MaskAt(f, j));
      }
    }
  }

  lemma {:induction false} MasksAvoid(fields: seq<Field>, size: nat, j: nat, bits: bv8)
    requires Uncovered(fields, size, j, bits)
    ensures Apart(Masks(fields, size, j), bits)
  {
    hide MaskAt, Apart, Or, Written;
    NoBits(bits);
    if fields != [] {
      var init, f := fields[..|fields| - 1], fields[|fields| - 1];
      MasksAvoid(init, size, j, bits);
      if Written(f, size) {
        OrApart(Masks(init, size, j), MaskAt(f, j), bits);
      }
    }
  }

  lemma {:induction false} AppliedAllAt(data: seq<bv8>, fields: seq<Field>, size: nat, j: nat)
    requires WellFormed(fields) && j < |data|
    ensures AppliedAll(data, fields, size)[j] ==
            Put(data[j], Masks(fields, size, j), Values(fields, size, j))
  {
    hide MaskAt, ValueAt, Put, Or, Within, Apart, Written;
    if fields == [] {
      PutNothing(data[j]);
    } else {
      var init, f := fields[..|fields| - 1], fields[|fields| - 1];
      WellFormedInit(fields);
      AppliedAllAt(data, init, size, j);
      if Written(f, size) {
        LastApart(fields, size, j);
        MasksAvoid(init, size, j, MaskAt(f, j));
        ValuesWithinMasks(init, size, j);
        PutTwice(data[j], Masks(init, size, j), Values(init, size, j), MaskAt(f, j), ValueAt(f, j));
      }
    }
  }

  // ----- one field in the whole image -----

  /** The unions m and v hold mask k and value x as they are. */
  predicate Holds(m: bv8, v: bv8, k: bv8, x: bv8) {
    m & k == k && v & k == x
  }

  lemma OrGathers(m: bv8, m': bv8, v: bv8, v': bv8)
    requires Within(v, m) && Within(v', m') && Apart(m, m')
    ensures Holds(Or(m, m'), Or(v, v'), m', v')
  {
  }

  lemma OrKeeps(m: bv8, m': bv8, v: bv8, v': bv8, k: bv8, x: bv8)
    requires Within(v', m') && Apart(k, m') && Holds(m, v, k, x)
    ensures Holds(Or(m, m'), Or(v, v'), k, x)
  {
  }

  /** A written field finds its own mask and value in the unions. */
  lemma {:induction false} UnionsHold(fields: seq<Field>, size: nat, j: nat, i: nat)
    requires WellFormed(fields) && i < |fields| && Written(fields[i], size)
    ensures Holds(Masks(fields, size, j), Values(fields, size, j), MaskAt(fields[i], j), ValueAt(fields[i], j))
  {
    hide MaskAt, ValueAt, Or, Within, Apart, Holds;
    var n := |fields| - 1;
    var init, f := fields[..n], fields[n];
    WellFormedInit(fields);
    LastApart(fields, size, j);
    if i == n {
      MasksAvoid(init, size, j, MaskAt(f, j));
      ValuesWithinMasks(init, size, j);
      ValueWithinMask(f, j);
      OrGathers(Masks(init, size, j), MaskAt(f, j), Values(init, size, j), ValueAt(f, j));
    } else {
      UnionsHold(init, size, j, i);
      if Written(f, size) {
        ValueWithinMask(f, j);
        OrKeeps(Masks(init, size, j), MaskAt(f, j), Values(init, size, j), ValueAt(f, j),
                MaskAt(init[i], j), ValueAt(init[i], j));
      }
    }
  }

  lemma PutShows(b: bv8, m: bv8, v: bv8, k: bv8, x: bv8)
    requires Holds(m, v, k, x)
    ensures And(Put(b, m, v), k) == x
  {
  }

  lemma PutSpares(b: bv8, m: bv8, v: bv8, k: bv8)
    requires Within(v, m) && Apart(m, k)
    ensures And(Put(b, m, v), k) == And(b, k)
  {
  }

  /** In every byte a written field shows exactly its value under its mask. */
  lemma WrittenShows(data: seq<bv8>, fields: seq<Field>, size: nat, i: nat, j: nat)
    requires WellFormed(fields) && i < |fields| && Written(fields[i], size) && j < |data|
    ensures And(AppliedAll(data, fields, size)[j], MaskAt(fields[i], j)) == ValueAt(fields[i], j)
  {
    hide *;
    AppliedAllAt(data, fields, size, j);
    UnionsHold(fields, size, j, i);
    PutShows(data[j], Masks(fields, size, j), Values(fields, size, j), MaskAt(fields[i], j), ValueAt(fields[i], j));
  }

  /** Bits that no written field owns keep their old contents. */
  lemma {:induction false} UncoveredKept(data: seq<bv8>, fields: seq<Field>, size: nat, j: nat, bits: bv8)
    requires WellFormed(fields) && j < |data| && Uncovered(fields, size, j, bits)
    ensures And(AppliedAll(data, fields, size)[j], bits) == And(data[j], bits)
  {
    hide MaskAt, ValueAt, Put, Within, Apart, And, Or, Uncovered;
    AppliedAllAt(data, fields, size, j);
    MasksAvoid(fields, size, j, bits);
    ValuesWithinMasks(fields, size, j);
    PutSpares(data[j], Masks(fields, size, j), Values(fields, size, j), bits);
  }

  // ----- encoding and then decoding -----

  lemma RawByteReads(b: bv8, value: bv32, mask: bv32, offs: bv5)
    requires offs <= 7 && Shl(mask, offs) <= 0xFF && mask <= 0xFF && Within32(value, mask)
    requires And(b, Low(Shl(mask, offs))) == Low(Shl(value, offs))
    ensures ((b as bv32) >> offs) & mask == value
  {
  }

  lemma RawWordReads(lo: bv8, hi: bv8, value: bv32, mask: bv32, offs: bv5)
    requires offs <= 15 && Shl(mask, offs) <= 0xFFFF && mask <= 0xFFFF && Within32(value, mask)
    requires And(lo, Low(Shl(mask, offs))) == Low(Shl(value, offs))
    requires And(hi, High(Shl(mask, offs))) == High(Shl(value, offs))
    ensures (((lo as bv16) | ((hi as bv16) << 8)) as bv32 >> offs) & mask == value
  {
  }

  lemma RawByteReadsSame(b: bv8, c: bv8, mask: bv32, offs: bv5)
    requires offs <= 7 && Shl(mask, offs) <= 0xFF && mask <= 0xFF
    requires And(b, Low(Shl(mask, offs))) == And(c, Low(Shl(mask, offs)))
    ensures ((b as bv32) >> offs) & mask == ((c as bv32) >> offs) & mask
  {
  }

  lemma RawWordReadsSame(lo: bv8, hi: bv8, lo': bv8, hi': bv8, mask: bv32, offs: bv5)
    requires offs <= 15 && Shl(mask, offs) <= 0xFFFF && mask <= 0xFFFF
    requires And(lo, Low(Shl(mask, offs))) == And(lo', Low(Shl(mask, offs)))
    requires And(hi, High(Shl(mask, offs))) == And(hi', High(Shl(mask, offs)))
    ensures (((lo as bv16) | ((hi as bv16) << 8)) as bv32 >> offs) & mask ==
            (((lo' as bv16) | ((hi' as bv16) << 8)) as bv32 >> offs) & mask
  {
  }

  lemma ByteReads(b: bv8, value: bv32, mask: bv32, offs: bv5)
    requires offs <= 7 && Shl(mask, offs) <= 0xFF && mask <= 0xFF && Within32(value, mask)
    requires And(b, Low(Shl(mask, offs))) == Low(Shl(value, offs))
    ensures Extract(b as bv32, offs, mask) == value
  {
    hide And, Low, Shl, Within32;
    RawByteReads(b, value, mask, offs);
  }

  lemma WordReads(lo: bv8, hi: bv8, value: bv32, mask: bv32, offs: bv5)
    requires offs <= 15 && Shl(mask, offs) <= 0xFFFF && mask <= 0xFFFF && Within32(value, mask)
    requires And(lo, Low(Shl(mask, offs))) == Low(Shl(value, offs))
    requires And(hi, High(Shl(mask, offs))) == High(Shl(value, offs))
    ensures Extract(Word(lo, hi) as bv32, offs, mask) == value
  {
    hide And, Low, High, Shl, Within32;
    RawWordReads(lo, hi, value, mask, offs);
  }

  lemma ByteReadsSame(b: bv8, c: bv8, mask: bv32, offs: bv5)
    requires offs <= 7 && Shl(mask, offs) <= 0xFF && mask <= 0xFF
    requires And(b, Low(Shl(mask, offs))) == And(c, Low(Shl(mask, offs)))
    ensures Extract(b as bv32, offs, mask) == Extract(c as bv32, offs, mask)
  {
    hide And, Low, Shl;
    RawByteReadsSame(b, c, mask, offs);
  }

  lemma WordReadsSame(lo: bv8, hi: bv8, lo': bv8, hi': bv8, mask: bv32, offs: bv5)
    requires offs <= 15 && Shl(mask, offs) <= 0xFFFF && mask <= 0xFFFF
    requires And(lo, Low(Shl(mask, offs))) == And(lo', Low(Shl(mask, offs)))
    requires And(hi, High(Shl(mask, offs))) == And(hi', High(Shl(mask, offs)))
    ensures Extract(Word(lo, hi) as bv32, offs, mask) == Extract(Word(lo', hi') as bv32, offs, mask)
  {
    hide And, Low, High, Shl;
    RawWordReadsSame(lo, hi, lo', hi', mask, offs);
  }

  // ----- the checksum -----

  function Rotl(x: bv16): bv16 {
    (x << 1) | (x >> 15)
  }

  function Xor(a: bv16, b: bv16): bv16 {
    a ^ b
  }

  /** The loop of the checksum from a given start. */
  function Fold(c: bv16, words: seq<bv16>): bv16
    decreases |words|
  {
    if words == [] then c else Fold(Rotl(Xor(words[0], c)), words[1..])
  }

  function Checksum(words: seq<bv16>): bv16 {
    Fold(0xAAAA, words)
  }

  /** Rotation to the left as arithmetic: doubled, with the bit that leaves at the bottom. */
  function Turn(x: bv16): bv16 {
    (2 * (x as bv32) % 0x1_0000 + (x as bv32) / 0x8000) as bv16
  }

  lemma RotlIsTurn(x: bv16)
    ensures Rotl(x) == Turn(x)
  {
  }

  function TurnN(x: bv16, n: nat): bv16
    decreases n
  {
    if n == 0 then x else TurnN(Turn(x), n - 1)
  }

  /** Each word rotated by its distance from the end, all xored together. */
  function Spread(words: seq<bv16>): bv16
    decreases |words|
  {
    if words == [] then 0 else Xor(TurnN(words[0], |words|), Spread(words[1..]))
  }

  lemma RotlXor(a: bv16, b: bv16)
    ensures Rotl(Xor(a, b)) == Xor(Rotl(a), Rotl(b))
  {
  }

  lemma TurnXor(a: bv16, b: bv16)
    ensures Turn(Xor(a, b)) == Xor(Turn(a), Turn(b))
  {
    hide Rotl, Turn, Xor;
    RotlXor(a, b);
    RotlIsTurn(a);
    RotlIsTurn(b);
    RotlIsTurn(Xor(a, b));
  }

  lemma XorAssociates(a: bv16, b: bv16, c: bv16)
    ensures Xor(Xor(a, b), c) == Xor(a, Xor(b, c))
  {
    assert (a ^ b) ^ c == a ^ (b ^ c);
  }

  lemma XorCommutes(a: bv16, b: bv16)
    ensures Xor(a, b) == Xor(b, a)
  {
    assert a ^ b == b ^ a;
  }

  lemma XorUnits(a: bv16)
    ensures Xor(a, 0) == a && Xor(0, a) == a && Xor(a, a) == 0
  {
  }

  lemma XorZeroIff(a: bv16, b: bv16)
    ensures Xor(a, b) == 0 <==> a == b
  {
    hide Xor;
    XorAssociates(a, b, b);
    XorUnits(a);
    XorUnits(b);
  }

  lemma {:induction false} TurnNXor(a: bv16, b: bv16, n: nat)
    ensures TurnN(Xor(a, b), n) == Xor(TurnN(a, n), TurnN(b, n))
    decreases n
  {
    hide Xor, Turn;
    if n > 0 {
      TurnXor(a, b);
      TurnNXor(Turn(a), Turn(b), n - 1);
    }
  }

  lemma {:induction false} FoldIs(c: bv16, words: seq<bv16>)
    ensures Fold(c, words) == Xor(TurnN(c, |words|), Spread(words))
    decreases |words|
  {
    hide Xor, Rotl, Turn;
    if words == [] {
      XorUnits(c);
    } else {
      var k, w, rest := |words|, words[0], words[1..];
      FoldIs(Rotl(Xor(w, c)), rest);
      RotlIsTurn(Xor(w, c));
      assert TurnN(Turn(Xor(w, c)), k - 1) == TurnN(Xor(w, c), k);
      TurnNXor(w, c, k);
      XorCommutes(TurnN(w, k), TurnN(c, k));
      XorAssociates(TurnN(c, k), TurnN(w, k), Spread(rest));
    }
  }

  /** checksum = turn^k(0xAAAA) xor the xor over i of turn^(k-i)(w_i). */
  lemma ChecksumIs(words: seq<bv16>)
    ensures Checksum(words) == Xor(TurnN(0xAAAA, |words|), Spread(words))
  {
    hide *;
    FoldIs(0xAAAA, words);
    ChecksumIsFold(words);
  }

  lemma ChecksumIsFold(words: seq<bv16>)
    ensures Checksum(words) == Fold(0xAAAA, words)
  {
    hide Fold;
  }

  function XorWords(a: seq<bv16>, b: seq<bv16>): seq<bv16>
    requires |a| == |b|
  {
    seq(|a|, i requires 0 <= i < |a| => Xor(a[i], b[i]))
  }

  lemma {:induction false} SpreadXor(a: seq<bv16>, b: seq<bv16>)
    requires |a| == |b|
    ensures Spread(XorWords(a, b)) == Xor(Spread(a), Spread(b))
    decreases |a|
  {
    hide Xor, Turn;
    if a == [] {
      XorUnits(0);
    } else {
      var k := |a|;
      SpreadXor(a[1..], b[1..]);
      assert XorWords(a, b)[1..] == XorWords(a[1..], b[1..]);
      TurnNXor(a[0], b[0], k);
      FourXor(TurnN(a[0], k), TurnN(b[0], k), Spread(a[1..]), Spread(b[1..]));
    }
  }

  lemma FourXor(a: bv16, b: bv16, c: bv16, d: bv16)
    ensures Xor(Xor(a, b), Xor(c, d)) == Xor(Xor(a, c), Xor(b, d))
  {
    hide Xor;
    XorAssociates(a, b, Xor(c, d));
    XorAssociates(b, c, d);
    XorCommutes(b, c);
    XorAssociates(c, b, d);
    XorAssociates(a, c, Xor(b, d));
  }

  /** A change goes unnoticed exactly when the changed bits, rotated, cancel out. */
  lemma UnnoticedIff(a: seq<bv16>, b: seq<bv16>)
    requires |a| == |b|
    ensures Checksum(a) == Checksum(b) <==> Spread(XorWords(a, b)) == 0
  {
    hide *;
    ChecksumIs(a);
    ChecksumIs(b);
    SpreadXor(a, b);
    CancelIff(TurnN(0xAAAA, |a|), Spread(a), Spread(b));
  }

  lemma CancelIff(c: bv16, x: bv16, y: bv16)
    ensures Xor(c, x) == Xor(c, y) <==> Xor(x, y) == 0
  {
    hide Xor;
    XorZeroIff(x, y);
    XorInjective(c, x, y);
  }

  lemma RotlInjective(a: bv16, b: bv16)
    requires Rotl(a) == Rotl(b)
    ensures a == b
  {
  }

  lemma XorInjective(w: bv16, a: bv16, b: bv16)
    ensures Xor(w, a) == Xor(w, b) ==> a == b
    ensures Xor(a, w) == Xor(b, w) ==> a == b
  {
  }

  lemma {:induction false} FoldInjective(c: bv16, d: bv16, words: seq<bv16>)
    requires Fold(c, words) == Fold(d, words)
    ensures c == d
    decreases |words|
  {
    hide Xor, Rotl;
    if words != [] {
      FoldInjective(Rotl(Xor(words[0], c)), Rotl(Xor(words[0], d)), words[1..]);
      RotlInjective(Xor(words[0], c), Xor(words[0], d));
      XorInjective(words[0], c, d);
    }
  }

  lemma {:induction false} OneWordChanges(c: bv16, a: seq<bv16>, b: seq<bv16>, i: nat)
    requires i < |a| == |b| && a[i] != b[i]
    requires forall k :: 0 <= k < |a| && k != i ==> a[k] == b[k]
    ensures Fold(c, a) != Fold(c, b)
    decreases |a|
  {
    hide Xor, Rotl;
    if i == 0 {
      assert a[1..] == b[1..];
      if Fold(c, a) == Fold(c, b) {
        FoldInjective(Rotl(Xor(a[0], c)), Rotl(Xor(b[0], c)), a[1..]);
        RotlInjective(Xor(a[0], c), Xor(b[0], c));
        XorInjective(c, a[0], b[0]);
      }
    } else {
      OneWordChanges(Rotl(Xor(a[0], c)), a[1..], b[1..], i - 1);
    }
  }

  /** Changing exactly one data word always changes the checksum. */
  lemma OneWordNoticed(a: seq<bv16>, b: seq<bv16>, i: nat)
    requires i < |a| == |b| && a[i] != b[i]
    requires forall k :: 0 <= k < |a| && k != i ==> a[k] == b[k]
    ensures Checksum(a) != Checksum(b)
  {
    hide *;
    OneWordChanges(0xAAAA, a, b, i);
    ChecksumIsFold(a);
    ChecksumIsFold(b);
  }

  // ----- the image as written -----

  function Words(data: seq<bv8>, count: nat): seq<bv16>
    requires 2 * count <= |data|
  {
    seq(count, i requires 0 <= i < count => WordAt(data, 2 * i))
  }

  /** The word that holds the checksum. */
  function LastWord(size: nat): nat
    requires size >= 2
  {
    size / 2 - 1
  }

  function LowOf(w: bv16): bv8 {
    (w & 0xFF) as bv8
  }

  function HighOf(w: bv16): bv8 {
    (w >> 8) as bv8
  }

  function StoreWord(data: seq<bv8>, at: nat, w: bv16): (r: seq<bv8>)
    requires at + 1 < |data|
    ensures |r| == |data|
  {
    data[at := LowOf(w)][at + 1 := HighOf(w)]
  }

  function Sealed(data: seq<bv8>, size: nat): (r: seq<bv8>)
    requires 2 <= size <= |data|
    ensures |r| == |data|
  {
    StoreWord(data, 2 * LastWord(size), Checksum(Words(data, LastWord(size))))
  }

  function Encoded(data: seq<bv8>, fields: seq<Field>, size: nat): (r: seq<bv8>)
    requires 2 <= size <= |data|
    ensures |r| == |data|
  {
    Sealed(AppliedAll(data, fields, size), size)
  }

  lemma BytePutIs(data: seq<bv8>, f: Field, size: nat)
    requires KindOf(f) == ByteField && Written(f, size) && f.addr < |data|
    ensures Applied(data, f, size) ==
            data[f.addr := (((data[f.addr] as bv32 & !Shl(f.mask, f.offs)) | Shl(f.value, f.offs)) & 0xFF) as bv8]
  {
    hide Put, Shl, Low, KindOf;
    BytePut(data[f.addr], Shl(f.mask, f.offs), Shl(f.value, f.offs));
    forall j | 0 <= j < |data| && j != f.addr ensures Applied(data, f, size)[j] == data[j] {
      PutNothing(data[j]);
    }
  }

  /** The 16-bit block after a word field has been put into it. */
  function WordWith(block: bv16, mask: bv32, value: bv32): bv16 {
    (((block as bv32 & !mask) | value) & 0xFFFF) as bv16
  }

  lemma WordWithIs(lo: bv8, hi: bv8, mask: bv32, value: bv32)
    ensures
      var word := WordWith(Word(lo, hi), mask, value);
      LowOf(word) == Put(lo, Low(mask), Low(value)) && HighOf(word) == Put(hi, High(mask), High(value))
  {
    WordPut(lo, hi, mask, value);
  }

  lemma WordPutIs(data: seq<bv8>, f: Field, size: nat)
    requires KindOf(f) == WordField && Written(f, size) && f.addr + 1 < |data|
    ensures Applied(data, f, size) ==
            StoreWord(data, f.addr, WordWith(WordAt(data, f.addr), Shl(f.mask, f.offs), Shl(f.value, f.offs)))
  {
    hide Put, Shl, Low, High, LowOf, HighOf, KindOf, WordWith, Word;
    WordWithIs(data[f.addr], data[f.addr + 1], Shl(f.mask, f.offs), Shl(f.value, f.offs));
    forall j | 0 <= j < |data| && j != f.addr && j != f.addr + 1 ensures Applied(data, f, size)[j] == data[j] {
      PutNothing(data[j]);
    }
  }

  lemma IgnoredPutIs(data: seq<bv8>, f: Field, size: nat)
    requires KindOf(f) == Ignored
    ensures Applied(data, f, size) == data
  {
    hide Put, Shl, KindOf, Written;
    forall j | 0 <= j < |data| ensures Put(data[j], 0, 0) == data[j] {
      PutNothing(data[j]);
    }
  }

  /** The global table, whose values Decode updates. */
  class Config {
    var fields: seq<Field>

    constructor (table: seq<Field>)
      ensures fields == table
    {
      fields := table;
    }

    static method EncodeField(data: array<bv8>, size: nat, f: Field)
      requires f.addr + Width(f) <= data.Length
      modifies data
      ensures data[..] == Applied(old(data[..]), f, size)
    {
      hide Put, Shl, LowOf, HighOf, WordWith, WordAt;
      if Skipped(f, size) || f.value == UNSET {
        return;
      }
      match KindOf(f) {
        case ByteField =>
          BytePutIs(data[..], f, size);
          data[f.addr] := (((data[f.addr] as bv32 & !Shl(f.mask, f.offs)) | Shl(f.value, f.offs)) & 0xFF) as bv8;
        case WordField =>
          WordPutIs(data[..], f, size);
          var word := WordWith(WordAt(data[..], f.addr), Shl(f.mask, f.offs), Shl(f.value, f.offs));
          data[f.addr] := LowOf(word);
          data[f.addr + 1] := HighOf(word);
        case Ignored =>
          IgnoredPutIs(data[..], f, size);
      }
    }

    static method Seal(data: array<bv8>, size: nat)
      requires 2 <= size <= data.Length
      modifies data
      ensures data[..] == Sealed(old(data[..]), size)
    {
      hide WordAt, LowOf, HighOf, Rotl, Xor;
      var checksum: bv16 := 0xAAAA;
      var last := LastWord(size);
      ghost var words := Words(data[..], last);
      var i := 0;
      while i < last
        invariant 0 <= i <= last
        invariant Fold(checksum, words[i..]) == Checksum(words)
        invariant data[..] == old(data[..])
      {
        assert words[i..][0] == WordAt(data[..], 2 * i) && words[i..][1..] == words[i + 1..];
        checksum := Xor(WordAt(data[..], 2 * i), checksum);
        checksum := Rotl(checksum);
        i := i + 1;
      }
      assert words[last..] == [];
      data[2 * last] := LowOf(checksum);
      data[2 * last + 1] := HighOf(checksum);
    }

    method Encode(data: array<bv8>, size: nat)
      requires 2 <= size <= data.Length && InBounds(fields, data.Length)
      modifies data
      ensures data[..] == Encoded(old(data[..]), fields, size)
    {
      hide Applied, Sealed, Width;
      var id := 0;
      while id < |fields|
        invariant 0 <= id <= |fields|
        invariant data[..] == AppliedAll(old(data[..]), fields[..id], size)
      {
        EncodeField(data, size, fields[id]);
        assert fields[..id + 1][..id] == fields[..id];
        id := id + 1;
      }
      assert fields[..id] == fields;
      Seal(data, size);
    }

    method Decode(data: array<bv8>, size: nat)
      requires InBounds(fields, data.Length)
      modifies this
      ensures |fields| == |old(fields)|
      ensures forall i :: 0 <= i < |fields| ==> fields[i] == Decoded(data[..], old(fields)[i], size)
    {
      hide ReadField;
      var id := 0;
      while id < |fields|
        invariant 0 <= id <= |fields| == |old(fields)|
        invariant forall i :: 0 <= i < id ==> fields[i] == Decoded(data[..], old(fields)[i], size)
        invariant forall i :: id <= i < |fields| ==> fields[i] == old(fields)[i]
      {
        fields := fields[id := Decoded(data[..], fields[id], size)];
        id := id + 1;
      }
    }
  }

  // ----- what decoding an encoded image gives -----

  /** Every field lies before the checksum word. */
  ghost predicate ClearOfChecksum(fields: seq<Field>, size: nat)
    requires size >= 2
  {
    forall i :: 0 <= i < |fields| ==> fields[i].addr + Width(fields[i]) <= 2 * LastWord(size)
  }

  lemma ReadsValue(data: seq<bv8>, f: Field)
    requires f.addr + Width(f) <= |data| && MaskFits(f) && Within32(f.value, f.mask)
    requires forall j :: 0 <= j < |data| ==> And(data[j], MaskAt(f, j)) == ValueAt(f, j)
    ensures ReadField(data, f) == f.value
  {
    hide And, Low, High, Shl, Within32, Extract, Word;
    match KindOf(f)
    case ByteField =>
      assert And(data[f.addr], MaskAt(f, f.addr)) == ValueAt(f, f.addr);
      ByteReads(data[f.addr], f.value, f.mask, f.offs);
    case WordField =>
      assert And(data[f.addr], MaskAt(f, f.addr)) == ValueAt(f, f.addr);
      assert And(data[f.addr + 1], MaskAt(f, f.addr + 1)) == ValueAt(f, f.addr + 1);
      WordReads(data[f.addr], data[f.addr + 1], f.value, f.mask, f.offs);
  }

  lemma ReadsSame(data: seq<bv8>, data': seq<bv8>, f: Field)
    requires f.addr + Width(f) <= |data| == |data'| && MaskFits(f)
    requires forall j :: 0 <= j < |data| ==> And(data[j], MaskAt(f, j)) == And(data'[j], MaskAt(f, j))
    ensures ReadField(data, f) == ReadField(data', f)
  {
    hide And, Low, High, Shl, Extract, Word;
    match KindOf(f)
    case ByteField =>
      assert And(data[f.addr], MaskAt(f, f.addr)) == And(data'[f.addr], MaskAt(f, f.addr));
      ByteReadsSame(data[f.addr], data'[f.addr], f.mask, f.offs);
    case WordField =>
      assert And(data[f.addr], MaskAt(f, f.addr)) == And(data'[f.addr], MaskAt(f, f.addr));
      assert And(data[f.addr + 1], MaskAt(f, f.addr + 1)) == And(data'[f.addr + 1], MaskAt(f, f.addr + 1));
      WordReadsSame(data[f.addr], data[f.addr + 1], data'[f.addr], data'[f.addr + 1], f.mask, f.offs);
  }

  /** Sealing touches nothing before the checksum word. */
  lemma SealSpares(data: seq<bv8>, size: nat, f: Field)
    requires 2 <= size <= |data| && f.addr + Width(f) <= 2 * LastWord(size)
    ensures ReadField(Sealed(data, size), f) == ReadField(data, f)
    ensures forall j :: 0 <= j < |data| && j != 2 * LastWord(size) && j != 2 * LastWord(size) + 1
                        ==> Sealed(data, size)[j] == data[j]
  {
    hide Checksum, Words, LowOf, HighOf, Word, Extract, KindOf;
  }

  lemma {:induction false} OthersApart(fields: seq<Field>, size: nat, i: nat, j: nat)
    requires WellFormed(fields) && i < |fields| && !Written(fields[i], size)
    ensures Uncovered(fields, size, j, MaskAt(fields[i], j))
  {
    hide MaskAt, Apart, Written, MaskFits, ValueFits;
    forall k | 0 <= k < |fields| && Written(fields[k], size)
      ensures Apart(MaskAt(fields[k], j), MaskAt(fields[i], j))
    {
      if k < i {
        assert Disjoint(fields[k], fields[i]);
      } else if i < k {
        assert Disjoint(fields[i], fields[k]);
        ApartCommutes(MaskAt(fields[i], j), MaskAt(fields[k], j));
      }
    }
  }

  lemma ApartCommutes(a: bv8, b: bv8)
    ensures Apart(a, b) <==> Apart(b, a)
  {
  }

  lemma WrittenReads(data: seq<bv8>, fields: seq<Field>, size: nat, i: nat)
    requires WellFormed(fields) && i < |fields| && Written(fields[i], size)
    requires fields[i].addr + Width(fields[i]) <= |data|
    ensures ReadField(AppliedAll(data, fields, size), fields[i]) == fields[i].value
  {
    hide And, MaskAt, ValueAt, AppliedAll, ReadField, PairwiseDisjoint, Width, MaskFits;
    forall j | 0 <= j < |data|
      ensures And(AppliedAll(data, fields, size)[j], MaskAt(fields[i], j)) == ValueAt(fields[i], j)
    {
      WrittenShows(data, fields, size, i, j);
    }
    ReadsValue(AppliedAll(data, fields, size), fields[i]);
  }

  lemma UnwrittenReads(data: seq<bv8>, fields: seq<Field>, size: nat, i: nat)
    requires WellFormed(fields) && i < |fields| && !Written(fields[i], size)
    requires fields[i].addr + Width(fields[i]) <= |data|
    ensures ReadField(AppliedAll(data, fields, size), fields[i]) == ReadField(data, fields[i])
  {
    hide And, MaskAt, ValueAt, AppliedAll, ReadField, PairwiseDisjoint, Width, MaskFits, Written, Uncovered;
    forall j | 0 <= j < |data|
      ensures And(AppliedAll(data, fields, size)[j], MaskAt(fields[i], j)) == And(data[j], MaskAt(fields[i], j))
    {
      OthersApart(fields, size, i, j);
      UncoveredKept(data, fields, size, j, MaskAt(fields[i], j));
    }
    ReadsSame(AppliedAll(data, fields, size), data, fields[i]);
  }

  /**
   * Decoding what was encoded gives every written field its value back, and reads every
   * other field as it stood in the old image.
   */
  lemma DecodeAfterEncode(data: seq<bv8>, fields: seq<Field>, size: nat, i: nat)
    requires 2 <= size <= |data| && WellFormed(fields) && ClearOfChecksum(fields, size) && i < |fields|
    ensures Decoded(Encoded(data, fields, size), fields[i], size) ==
            if Written(fields[i], size) then fields[i] else Decoded(data, fields[i], size)
  {
    hide ReadField, AppliedAll, Sealed, WellFormed;
    SealSpares(AppliedAll(data, fields, size), size, fields[i]);
    if Written(fields[i], size) {
      WrittenReads(data, fields, size, i);
    } else {
      UnwrittenReads(data, fields, size, i);
    }
  }

  // ----- the order of the table does not matter -----

  lemma WithinOr(x: bv8, a: bv8, b: bv8)
    ensures Within(x, a) || Within(x, b) ==> Within(x, Or(a, b))
    ensures Within(x, x) && (Within(a, x) && Within(b, x) ==> Within(Or(a, b), x))
    ensures Within(a, b) && Within(b, a) ==> a == b
  {
  }

  lemma {:induction false} MemberWithin(fields: seq<Field>, size: nat, j: nat, i: nat)
    requires i < |fields| && Written(fields[i], size)
    ensures Within(MaskAt(fields[i], j), Masks(fields, size, j))
    ensures Within(ValueAt(fields[i], j), Values(fields, size, j))
  {
    hide MaskAt, ValueAt, Within, Or, Written;
    var init, f := fields[..|fields| - 1], fields[|fields| - 1];
    if i < |init| {
      MemberWithin(init, size, j, i);
    }
    WithinOr(MaskAt(fields[i], j), Masks(init, size, j), MaskAt(f, j));
    WithinOr(ValueAt(fields[i], j), Values(init, size, j), ValueAt(f, j));
    WithinOr(MaskAt(f, j), MaskAt(f, j), MaskAt(f, j));
    WithinOr(ValueAt(f, j), ValueAt(f, j), ValueAt(f, j));
  }

  lemma {:induction false} UnionsWithin(fields: seq<Field>, others: seq<Field>, size: nat, j: nat)
    requires forall f :: f in fields ==> f in others
    ensures Within(Masks(fields, size, j), Masks(others, size, j))
    ensures Within(Values(fields, size, j), Values(others, size, j))
    decreases |fields|
  {
    hide MaskAt, ValueAt, Within, Or, Written;
    if fields == [] {
      NothingWithin(Masks(others, size, j));
      NothingWithin(Values(others, size, j));
    } else {
      var init, f := fields[..|fields| - 1], fields[|fields| - 1];
      assert f in fields;
      UnionsWithin(init, others, size, j);
      if Written(f, size) {
        var i :| 0 <= i < |others| && others[i] == f;
        MemberWithin(others, size, j, i);
        WithinOr(Masks(others, size, j), Masks(init, size, j), MaskAt(f, j));
        WithinOr(Values(others, size, j), Values(init, size, j), ValueAt(f, j));
      }
    }
  }

  lemma NothingWithin(m: bv8)
    ensures Within(0, m)
  {
  }

  /** Tables with the same fields encode to the same image, whatever their order. */
  lemma OrderIrrelevant(data: seq<bv8>, fields: seq<Field>, others: seq<Field>, size: nat)
    requires 2 <= size <= |data| && WellFormed(fields) && WellFormed(others)
    requires forall f :: f in fields <==> f in others
    ensures Encoded(data, fields, size) == Encoded(data, others, size)
  {
    hide WellFormed, AppliedAll, Masks, Values, Within, Put, Or, Sealed;
    forall j | 0 <= j < |data|
      ensures AppliedAll(data, fields, size)[j] == AppliedAll(data, others, size)[j]
    {
      AppliedAllAt(data, fields, size, j);
      AppliedAllAt(data, others, size, j);
      UnionsWithin(fields, others, size, j);
      UnionsWithin(others, fields, size, j);
      WithinOr(0, Masks(fields, size, j), Masks(others, size, j));
      WithinOr(0, Values(fields, size, j), Values(others, size, j));
    }
    assert AppliedAll(data, fields, size) == AppliedAll(data, others, size);
  }

  // ----- bytes, words and shifts as numbers -----

  /** Division by 2^offs. */
  function Quotient(b: bv32, offs: bv5): bv32 {
    match offs
    case 0 => b / 0x1
    case 1 => b / 0x2
    case 2 => b / 0x4
    case 3 => b / 0x8
    case 4 => b / 0x10
    case 5 => b / 0x20
    case 6 => b / 0x40
    case 7 => b / 0x80
    case 8 => b / 0x100
    case 9 => b / 0x200
    case 10 => b / 0x400
    case 11 => b / 0x800
    case 12 => b / 0x1000
    case 13 => b / 0x2000
    case 14 => b / 0x4000
    case _ => b / 0x8000
  }

  function Shr(b: bv32, offs: bv5): bv32 {
    b >> offs
  }

  lemma ShrByByte(b: bv32)
    ensures Shr(b, 0) == b / 0x1 && Shr(b, 1) == b / 0x2 && Shr(b, 2) == b / 0x4 && Shr(b, 3) == b / 0x8
    ensures Shr(b, 4) == b / 0x10 && Shr(b, 5) == b / 0x20 && Shr(b, 6) == b / 0x40 && Shr(b, 7) == b / 0x80
  {
  }

  lemma ShrByMore(b: bv32)
    ensures Shr(b, 8) == b / 0x100 && Shr(b, 9) == b / 0x200
    ensures Shr(b, 10) == b / 0x400 && Shr(b, 11) == b / 0x800
    ensures Shr(b, 12) == b / 0x1000 && Shr(b, 13) == b / 0x2000
    ensures Shr(b, 14) == b / 0x4000 && Shr(b, 15) == b / 0x8000
  {
  }

  lemma ShrDivides(b: bv32, offs: bv5)
    requires offs <= 15
    ensures Shr(b, offs) == Quotient(b, offs)
  {
    hide Shr;
    ShrByByte(b);
    ShrByMore(b);
  }

  function Cut(x: bv32, mask: bv32): bv32 {
    x & mask
  }

  lemma ExtractIs(b: bv32, offs: bv5, mask: bv32)
    requires offs <= 15
    ensures Extract(b, offs, mask) == Cut(Quotient(b, offs), mask)
  {
    hide Quotient;
    ShrDivides(b, offs);
  }

  /** Two bytes as a number, the first the low one. */
  function Number(lo: bv8, hi: bv8): bv16 {
    lo as bv16 + 256 * (hi as bv16)
  }

  lemma WordIsNumber(lo: bv8, hi: bv8)
    ensures Word(lo, hi) == Number(lo, hi)
  {
  }

  lemma BytesOfWord(w: bv16)
    ensures Number(LowOf(w), HighOf(w)) == w
  {
  }

  /** What Decode reads for a mask of at most 8 bits: the byte divided by 2^offs and cut to the mask. */
  lemma DecodedByte(data: seq<bv8>, f: Field, size: nat)
    requires f.mask <= 0xFF || f.mask >= 0x8000_0000
    requires f.addr < |data| && f.offs <= 15 && !(f.offs as int >= size)
    ensures Decoded(data, f, size) == f.(value := Cut(Quotient(data[f.addr] as bv32, f.offs), f.mask))
  {
    hide Extract, Quotient, Cut;
    ReadIs(data, f);
  }

  /** For a wider mask, the two bytes as a number, lowest first. */
  lemma DecodedWord(data: seq<bv8>, f: Field, size: nat)
    requires 0xFF < f.mask <= 0xFFFF
    requires f.addr + 1 < |data| && f.offs <= 15 && !(f.offs as int >= size)
    ensures Decoded(data, f, size) ==
            f.(value := Cut(Quotient(Number(data[f.addr], data[f.addr + 1]) as bv32, f.offs), f.mask))
  {
    hide Extract, Quotient, Number, Word, Cut;
    ReadIs(data, f);
  }

  /** A field whose bit offset is not below the size, or with too wide a mask, stays as it was. */
  lemma DecodeSkips(data: seq<bv8>, f: Field, size: nat)
    requires f.addr + Width(f) <= |data|
    requires f.offs as int >= size || 0xFFFF < f.mask < 0x8000_0000
    ensures Decoded(data, f, size) == f
  {
    hide Extract, Word;
  }

  lemma ReadIs(data: seq<bv8>, f: Field)
    requires f.addr + Width(f) <= |data| && f.offs <= 15
    ensures ReadField(data, f) ==
            match KindOf(f)
            case ByteField => Cut(Quotient(data[f.addr] as bv32, f.offs), f.mask)
            case WordField => Cut(Quotient(Number(data[f.addr], data[f.addr + 1]) as bv32, f.offs), f.mask)
            case Ignored => f.value
  {
    hide Extract, Quotient, Number, Word, Cut, KindOf;
    match KindOf(f)
    case ByteField => ExtractIs(data[f.addr] as bv32, f.offs, f.mask);
    case WordField =>
      WordIsNumber(data[f.addr], data[f.addr + 1]);
      ExtractIs(Number(data[f.addr], data[f.addr + 1]) as bv32, f.offs, f.mask);
    case Ignored =>
  }

  /** Encode leaves the image as it is for a field that is unset, skipped or too wide. */
  lemma EncodeSkips(data: seq<bv8>, f: Field, size: nat)
    requires f.value == 0xFFFF_FFFF || f.offs as int >= size || 0xFFFF < f.mask < 0x8000_0000
    ensures Applied(data, f, size) == data
  {
    hide Put, Shl, Low, High;
    if KindOf(f) == Ignored {
      IgnoredPutIs(data, f, size);
    }
  }

  function Numbers(data: seq<bv8>, count: nat): seq<bv16>
    requires 2 * count <= |data|
  {
    seq(count, i requires 0 <= i < count => Number(data[2 * i], data[2 * i + 1]))
  }

  /** The last two bytes of an encoded image are the checksum of all before, lowest first. */
  lemma EncodedChecksum(data: seq<bv8>, fields: seq<Field>, size: nat)
    requires 2 <= size <= |data|
    ensures
      var image, k := Encoded(data, fields, size), size / 2 - 1;
      Number(image[2 * k], image[2 * k + 1]) == Xor(TurnN(0xAAAA, k), Spread(Numbers(image, k)))
  {
    hide Number, Word, LowOf, HighOf, Xor, Spread, TurnN, Checksum, AppliedAll;
    var before, image, k := AppliedAll(data, fields, size), Encoded(data, fields, size), size / 2 - 1;
    BytesOfWord(Checksum(Words(before, k)));
    ChecksumIs(Words(before, k));
    forall i | 0 <= i < k ensures Words(before, k)[i] == Numbers(image, k)[i] {
      WordIsNumber(before[2 * i], before[2 * i + 1]);
    }
    assert Words(before, k) == Numbers(image, k);
  }

  /** Encoding changes no bit outside the written fields and the checksum word. */
  lemma RestKept(data: seq<bv8>, fields: seq<Field>, size: nat, j: nat, bits: bv8)
    requires 2 <= size <= |data| && WellFormed(fields) && j < |data|
    requires j != 2 * LastWord(size) && j != 2 * LastWord(size) + 1
    requires Uncovered(fields, size, j, bits)
    ensures And(Encoded(data, fields, size)[j], bits) == And(data[j], bits)
  {
    hide AppliedAll, And, WellFormed, Uncovered, Checksum, Words, LowOf, HighOf;
    UncoveredKept(data, fields, size, j, bits);
  }

  lemma ExtractWithin(block: bv32, offs: bv5, mask: bv32)
    ensures Within32(Extract(block, offs, mask), mask)
  {
  }

  /** A value that does not fit its mask never comes back, whatever else the image holds. */
  lemma OnlyFittingValuesReturn(data: seq<bv8>, f: Field, size: nat)
    requires f.addr + Width(f) <= |data| && KindOf(f) != Ignored && !Skipped(f, size)
    requires Decoded(data, f, size).value == f.value
    ensures Within32(f.value, f.mask)
  {
    hide Within32, Extract, WordAt;
    match KindOf(f)
    case ByteField => ExtractWithin(data[f.addr] as bv32, f.offs, f.mask);
    case WordField => ExtractWithin(WordAt(data, f.addr) as bv32, f.offs, f.mask);
  }

  // ----- the shipped table -----

  const EEPROM_SIZE: nat := 128

  const SHIPPED_SIZE: nat := 24

  /** Row i of the table. */
  function Shipped(i: nat): Field
    requires i < SHIPPED_SIZE
  {
    match i
    case 0 => Field(0x00, 3, 0x1, UNSET)
    case 1 => Field(0x01, 3, 0x1, UNSET)
    case 2 => Field(0x00, 7, 0x1, UNSET)
    case 3 => Field(0x01, 7, 0x1, UNSET)
    case 4 => Field(0x02, 0, 0xFFFF, UNSET)
    case 5 => Field(0x04, 0, 0xFFFF, UNSET)
    case 6 => Field(0x06, 0, 0xFF, UNSET)
    case 7 => Field(0x07, 0, 0xFF, UNSET)
    case 8 => Field(0x08, 5, 0x1, UNSET)
    case 9 => Field(0x08, 6, 0x1, UNSET)
    case 10 => Field(0x08, 7, 0x1, UNSET)
    case 11 => Field(0x09, 0, 0xFF, UNSET)
    case 12 => Field(0x0A, 0, 0x1, UNSET)
    case 13 => Field(0x0A, 1, 0x1, UNSET)
    case 14 => Field(0x0A, 2, 0x1, UNSET)
    case 15 => Field(0x0A, 3, 0x1, UNSET)
    case 16 => Field(0x0A, 4, 0x1, UNSET)
    case 17 => Field(0x0B, 4, 0x1, UNSET)
    case 18 => Field(0x0B, 5, 0x1, UNSET)
    case 19 => Field(0x0B, 6, 0x1, UNSET)
    case 20 => Field(0x0B, 7, 0x1, UNSET)
    case 21 => Field(0x0C, 0, 0xFFFF, UNSET)
    case 22 => Field(0x15, 0, 0xF, UNSET)
    case _ => Field(0x18, 0, 0xFF, UNSET)
  }

  const SHIPPED: seq<Field> := seq(SHIPPED_SIZE, i requires 0 <= i < SHIPPED_SIZE => Shipped(i))

  /** A run of bits: where it starts, counted from bit 0 of byte 0, and where it ends. */
  function SpanStart(f: Field): nat {
    8 * f.addr + f.offs as nat
  }

  function Bits(mask: bv32): nat {
    if mask == 1 then 1 else if mask == 0xF then 4 else if mask == 0xFF then 8 else 16
  }

  function SpanEnd(f: Field): nat {
    SpanStart(f) + Bits(f.mask)
  }

  /** A mask of consecutive ones that stays inside its byte or word. */
  predicate Plain(f: Field) {
    && f.mask in [1, 0xF, 0xFF, 0xFFFF]
    && f.offs as nat + Bits(f.mask) <= if f.mask == 0xFFFF then 16 else 8
  }

  lemma LowApart(m: bv32, o: bv5, m': bv32, o': bv5)
    requires o < o' <= 7 && (m == 1 || (m == 0xF && o <= 3 && o + 4 <= o'))
    ensures Apart(Low(Shl(m, o)), Low(Shl(m', o')))
  {
  }

  lemma BvOrder(o: bv5, o': bv5, n: nat)
    requires o as nat + n <= o' as nat && n > 0
    ensures o < o' && (n == 4 && o <= 3 ==> o + 4 <= o')
  {
  }

  lemma ApartZero(x: bv8)
    ensures Apart(0, x) && Apart(x, 0)
  {
  }

  /** Fields whose spans do not overlap own disjoint bits. */
  lemma SpansApart(f: Field, g: Field)
    requires Plain(f) && Plain(g) && SpanEnd(f) <= SpanStart(g)
    ensures Disjoint(f, g)
  {
    forall j: nat ensures Apart(MaskAt(f, j), MaskAt(g, j)) {
      if f.addr == g.addr {
        SameByteApart(f, g, j);
      } else {
        OtherByteApart(f, g, j);
      }
    }
  }

  lemma SameByteApart(f: Field, g: Field, j: nat)
    requires Plain(f) && Plain(g) && SpanEnd(f) <= SpanStart(g) && f.addr == g.addr
    ensures Apart(MaskAt(f, j), MaskAt(g, j))
  {
    hide Apart, Low, High, Shl;
    BvOrder(f.offs, g.offs, Bits(f.mask));
    ApartZero(0);
    if j == f.addr {
      LowApart(f.mask, f.offs, g.mask, g.offs);
    }
  }

  lemma OtherByteApart(f: Field, g: Field, j: nat)
    requires Plain(f) && Plain(g) && SpanEnd(f) <= SpanStart(g) && f.addr != g.addr
    ensures Apart(MaskAt(f, j), MaskAt(g, j))
  {
    hide Apart, Low, High, Shl;
    ApartZero(MaskAt(f, j));
    ApartZero(MaskAt(g, j));
  }

  lemma PlainFits(f: Field)
    requires Plain(f)
    ensures MaskFits(f) && 1 <= Width(f) <= 2
  {
    if f.mask == 0xFFFF {
      assert f.offs == 0;
    }
  }

  /** What the rows must have in common, and where the next one must not reach. */
  predicate RowOk(f: Field) {
    Plain(f) && f.addr <= 0x18 && f.value == UNSET
  }

  lemma DriverRows(i: nat)
    requires i < 4
    ensures RowOk(Shipped(i))
  {
  }

  lemma IdRows(i: nat)
    requires 4 <= i < 8
    ensures RowOk(Shipped(i))
    ensures SpanEnd(Shipped(i)) <= SpanStart(Shipped(i + 1))
  {
  }

  lemma PowerRows(i: nat)
    requires 8 <= i < 12
    ensures RowOk(Shipped(i))
    ensures SpanEnd(Shipped(i)) <= SpanStart(Shipped(i + 1))
  {
  }

  lemma TransferRows(i: nat)
    requires 12 <= i < 16
    ensures RowOk(Shipped(i))
    ensures SpanEnd(Shipped(i)) <= SpanStart(Shipped(i + 1))
  {
  }

  lemma PortRows(i: nat)
    requires 16 <= i < 20
    ensures RowOk(Shipped(i))
    ensures SpanEnd(Shipped(i)) <= SpanStart(Shipped(i + 1))
  {
  }

  lemma LastRows(i: nat)
    requires 20 <= i < 24
    ensures RowOk(Shipped(i))
    ensures i < 23 ==> SpanEnd(Shipped(i)) <= SpanStart(Shipped(i + 1))
  {
  }

  lemma ShippedRow(i: nat)
    requires i < |SHIPPED|
    ensures Plain(SHIPPED[i]) && SHIPPED[i].addr <= 0x18 && SHIPPED[i].value == UNSET
    ensures 4 <= i < |SHIPPED| - 1 ==> SpanEnd(SHIPPED[i]) <= SpanStart(SHIPPED[i + 1])
  {
    hide Shipped, SpanEnd, SpanStart, Plain;
    match i / 4
    case 0 => DriverRows(i);
    case 1 => IdRows(i);
    case 2 => PowerRows(i);
    case 3 => TransferRows(i);
    case 4 => PortRows(i);
    case _ => LastRows(i);
  }

  /** From the vendor id on, the table is in the order of its bits. */
  lemma {:induction false} ShippedSorted(i: nat, k: nat)
    requires 4 <= i < k < |SHIPPED|
    ensures SpanEnd(SHIPPED[i]) <= SpanStart(SHIPPED[k])
    decreases k
  {
    ShippedRow(k - 1);
    if i < k - 1 {
      ShippedSorted(i, k - 1);
    }
  }

  /** The four driver bits come first and lie before everything else. */
  lemma ShippedDrivers(i: nat, k: nat)
    requires i < 4 && i < k < |SHIPPED|
    ensures SpanEnd(SHIPPED[i]) <= SpanStart(SHIPPED[k]) || SpanEnd(SHIPPED[k]) <= SpanStart(SHIPPED[i])
  {
    if k >= 4 {
      assert SpanEnd(SHIPPED[i]) <= 16;
      assert SpanStart(SHIPPED[4]) == 16;
      if k > 4 {
        ShippedSorted(4, k);
      }
    }
  }

  /** The shipped table meets the conditions of the theorems above. */
  lemma ShippedTableWellFormed()
    ensures WellFormed(SHIPPED) && ClearOfChecksum(SHIPPED, EEPROM_SIZE)
  {
    hide SpanEnd, SpanStart, Plain, Disjoint, SHIPPED;
    forall i | 0 <= i < |SHIPPED|
      ensures MaskFits(SHIPPED[i]) && ValueFits(SHIPPED[i])
      ensures SHIPPED[i].addr + Width(SHIPPED[i]) <= 2 * LastWord(EEPROM_SIZE)
    {
      ShippedRow(i);
      PlainFits(SHIPPED[i]);
    }
    forall i, k | 0 <= i < k < |SHIPPED| ensures Disjoint(SHIPPED[i], SHIPPED[k]) {
      ShippedApart(i, k);
    }
  }

  lemma ShippedApart(i: nat, k: nat)
    requires i < k < |SHIPPED|
    ensures Disjoint(SHIPPED[i], SHIPPED[k])
  {
    hide SpanEnd, SpanStart, Plain, Disjoint, SHIPPED;
    ShippedRow(i);
    ShippedRow(k);
    if i >= 4 {
      ShippedSorted(i, k);
      SpansApart(SHIPPED[i], SHIPPED[k]);
    } else {
      ShippedDrivers(i, k);
      if SpanEnd(SHIPPED[i]) <= SpanStart(SHIPPED[k]) {
        SpansApart(SHIPPED[i], SHIPPED[k]);
      } else {
        SpansApart(SHIPPED[k], SHIPPED[i]);
        DisjointCommutes(SHIPPED[k], SHIPPED[i]);
      }
    }
  }

  lemma DisjointCommutes(f: Field, g: Field)
    requires Disjoint(f, g)
    ensures Disjoint(g, f)
  {
    hide Apart, MaskAt;
    forall j: nat ensures Apart(MaskAt(g, j), MaskAt(f, j)) {
      ApartCommutes(MaskAt(f, j), MaskAt(g, j));
    }
  }

  lemma SameMaskAt(f: Field, g: Field, j: nat)
    requires f.(value := UNSET) == g
    ensures MaskAt(f, j) == MaskAt(g, j)
  {
    hide Low, High, Shl, KindOfMask;
  }

  /** So does the table with any values that fit, as it is used. */
  lemma ShippedWithValues(fields: seq<Field>)
    requires |fields| == |SHIPPED|
    requires forall i :: 0 <= i < |fields| ==> fields[i].(value := UNSET) == SHIPPED[i] && ValueFits(fields[i])
    ensures WellFormed(fields) && ClearOfChecksum(fields, EEPROM_SIZE)
  {
    hide SHIPPED, Apart, MaskAt, ValueFits;
    ShippedTableWellFormed();
    forall i, k | 0 <= i < k < |fields| ensures Disjoint(fields[i], fields[k]) {
      assert Disjoint(SHIPPED[i], SHIPPED[k]);
      forall j: nat ensures Apart(MaskAt(fields[i], j), MaskAt(fields[k], j)) {
        SameMaskAt(fields[i], SHIPPED[i], j);
        SameMaskAt(fields[k], SHIPPED[k], j);
      }
    }
    forall i | 0 <= i < |fields|
      ensures MaskFits(fields[i]) && fields[i].addr + Width(fields[i]) <= 2 * LastWord(EEPROM_SIZE)
    {
      assert MaskFits(SHIPPED[i]) && SHIPPED[i].addr + Width(SHIPPED[i]) <= 2 * LastWord(EEPROM_SIZE);
    }
  }
}
