/**
 CRC-16 with the reflected polynomial 0xA001, and what it detects. The laws are proved about registers
 and bytes written as their bits, lowest first, so that exclusive or is bit by bit; the routines work
 on machine words, and the two are tied together by Bits.
 */
module Crc16 {
  import opened Common

  /** 16 bits; a byte of a message is 8. */
  type Word = s: seq<bool> | |s| == 16
    witness [false, false, false, false, false, false, false, false,
             false, false, false, false, false, false, false, false]
  type Octet = s: seq<bool> | |s| == 8 witness [false, false, false, false, false, false, false, false]

  const POLYNOMIAL: Word := [true, false, false, false, false, false, false, false,
                            false, false, false, false, false, true, false, true]
  const INITIAL: Word := [true, true, true, true, true, true, true, true,
                         true, true, true, true, true, true, true, true]

  function Xor(a: seq<bool>, b: seq<bool>): (r: seq<bool>)
    requires |a| == |b|
    ensures |r| == |a| && forall i :: 0 <= i < |a| ==> r[i] == (a[i] != b[i])
  {
    seq(|a|, i requires 0 <= i < |a| => a[i] != b[i])
  }

  function Falses(n: nat): (r: seq<bool>)
    ensures |r| == n && forall i :: 0 <= i < n ==> !r[i]
  {
    seq(n, _ => false)
  }

  /** A byte widened to a word. */
  function Wide(a: Octet): Word {
    a + Falses(8)
  }

  /** c >> 1. */
  function Half(c: Word): Word {
    c[1..] + [false]
  }

  function Shift(c: Word): Word {
    if c[0] then Xor(Half(c), POLYNOMIAL) else Half(c)
  }

  function Shifts(c: Word, n: nat): Word {
    if n == 0 then c else Shift(Shifts(c, n - 1))
  }

  function Update(c: Word, a: Octet): Word {
    Shifts(Xor(c, Wide(a)), 8)
  }

  /** The register after the bytes of a message, started from c. */
  function CrcFrom(c: Word, data: seq<Octet>): Word {
    if data == [] then c else Update(CrcFrom(c, data[..|data| - 1]), data[|data| - 1])
  }

  function Crc(data: seq<Octet>): Word {
    CrcFrom(INITIAL, data)
  }

  // ----- machine words

  predicate Bit(w: bv16, mask: bv16) {
    w & mask != 0
  }

  /** The masks of the bits, lowest first. */
  const MASKS: seq<bv16> := [0x0001, 0x0002, 0x0004, 0x0008, 0x0010, 0x0020, 0x0040, 0x0080,
                             0x0100, 0x0200, 0x0400, 0x0800, 0x1000, 0x2000, 0x4000, 0x8000]

  /** The bits of a machine word. */
  function Bits(w: bv16): (s: Word)
    ensures forall i :: 0 <= i < 16 ==> s[i] == Bit(w, MASKS[i])
  {
    seq(16, i requires 0 <= i < 16 => Bit(w, MASKS[i]))
  }

  function OctetBits(a: bv8): Octet {
    Bits(a as bv16)[..8]
  }

  /** The constants of the source. */
  lemma Constants()
    ensures Bits(0xA001) == POLYNOMIAL && Bits(0xFFFF) == INITIAL && Bits(0) == Falses(16)
  {}

  lemma BitsOfXor(a: bv16, b: bv16)
    ensures Bits(a ^ b) == Xor(Bits(a), Bits(b))
  {
    hide Bit, Bits;
    forall i | 0 <= i < 16 ensures Bits(a ^ b)[i] == Xor(Bits(a), Bits(b))[i] {
      BitOfXor(a, b, MASKS[i]);
    }
  }

  lemma BitOfXor(a: bv16, b: bv16, mask: bv16)
    requires mask in MASKS
    ensures Bit(a ^ b, mask) == (Bit(a, mask) != Bit(b, mask))
  {}

  lemma BitsOfHalf(c: bv16)
    ensures Bits(c >> 1) == Half(Bits(c)) && (c & 1 != 0) == Bits(c)[0]
  {
    hide Bit, Bits;
    forall i | 0 <= i < 15 ensures Bits(c >> 1)[i] == Half(Bits(c))[i] {
      BitOfHalf(c, MASKS[i], MASKS[i + 1]);
    }
    BitsAtEnds(c);
  }

  lemma BitOfHalf(c: bv16, mask: bv16, next: bv16)
    requires mask in MASKS && next == mask << 1
    ensures Bit(c >> 1, mask) == Bit(c, next)
  {}

  lemma BitsAtEnds(c: bv16)
    ensures (c & 1 != 0) == Bits(c)[0] && !Bits(c >> 1)[15]
  {
    assert MASKS[0] == 0x0001 && MASKS[15] == 0x8000;
  }

  lemma BitsOfByte(a: bv8)
    ensures Bits(a as bv16) == Wide(OctetBits(a))
  {
    hide Bit;
    var w := a as bv16;
    forall i | 8 <= i < 16 ensures !Bits(w)[i] {
      NoHighBit(a, MASKS[i]);
    }
    assert Bits(w) == Bits(w)[..8] + Bits(w)[8..] && Bits(w)[8..] == Falses(8);
  }

  lemma NoHighBit(a: bv8, mask: bv16)
    requires mask & 0xFF == 0
    ensures !Bit(a as bv16, mask)
  {}

  /** Different words have different bits. */
  lemma BitsTell(a: bv16, b: bv16)
    requires Bits(a) == Bits(b)
    ensures a == b
  {
    SameBits(a, b, 0, 1, 2, 3);
    SameBits(a, b, 4, 5, 6, 7);
    SameBits(a, b, 8, 9, 10, 11);
    SameBits(a, b, 12, 13, 14, 15);
    hide Bits;
  }

  lemma SameBits(a: bv16, b: bv16, i: nat, j: nat, k: nat, l: nat)
    requires Bits(a) == Bits(b) && i < 16 && j < 16 && k < 16 && l < 16
    ensures var m := MASKS[i] | MASKS[j] | MASKS[k] | MASKS[l]; a & m == b & m
  {
    BitOfBoth(a, b, MASKS[i], i);
    BitOfBoth(a, b, MASKS[j], j);
    BitOfBoth(a, b, MASKS[k], k);
    BitOfBoth(a, b, MASKS[l], l);
  }

  lemma BitOfBoth(a: bv16, b: bv16, mask: bv16, i: nat)
    requires Bits(a) == Bits(b) && i < 16 && mask == MASKS[i]
    ensures a & mask == b & mask
  {
    assert Bits(a)[i] == Bits(b)[i];
    hide Bits;
    SameBit(a, b, mask);
  }

  lemma SameBit(a: bv16, b: bv16, mask: bv16)
    requires mask in MASKS && Bit(a, mask) == Bit(b, mask)
    ensures a & mask == b & mask
  {}

  function ShiftWord(c: bv16): bv16 {
    if c & 1 != 0 then (c >> 1) ^ 0xA001 else c >> 1
  }

  lemma BitsOfShift(c: bv16)
    ensures Bits(ShiftWord(c)) == Shift(Bits(c))
  {
    BitsOfHalf(c);
    BitsOfXor(c >> 1, 0xA001);
    Constants();
  }

  method Crc16Update(crc: bv16, a: bv8) returns (r: bv16)
    ensures Bits(r) == Update(Bits(crc), OctetBits(a))
  {
    hide Bits, OctetBits, Xor, Wide, Shift;
    r := crc ^ (a as bv16);
    BitsOfXor(crc, a as bv16);
    BitsOfByte(a);
    ghost var start := Bits(r);
    var i := 0;
    while i < 8
      invariant 0 <= i <= 8 && Bits(r) == Shifts(start, i)
    {
      BitsOfShift(r);
      if r & 1 != 0 {
        r := (r >> 1) ^ 0xA001;
      } else {
        r := r >> 1;
      }
      i := i + 1;
    }
  }

  function Octets(data: seq<bv8>): (r: seq<Octet>)
    ensures |r| == |data| && forall i :: 0 <= i < |r| ==> r[i] == OctetBits(data[i])
  {
    seq(|data|, i requires 0 <= i < |data| => OctetBits(data[i]))
  }

  /** No data at all (a null pointer) gives 0, an empty message the initial value. */
  method CalculateCrc16(data: Option<seq<bv8>>) returns (r: bv16)
    ensures Bits(r) == if data.None? then Falses(16) else Crc(Octets(data.value))
    ensures data.None? ==> r == 0
  {
    Constants();
    if data.None? {
      return 0;
    }
    hide Update, Bits, OctetBits;
    var bytes := data.value;
    ghost var octets := Octets(bytes);
    r := 0xFFFF;
    var i := 0;
    while i < |bytes|
      invariant 0 <= i <= |bytes| && Bits(r) == Crc(octets[..i])
    {
      assert octets[..i + 1][..i] == octets[..i];
      r := Crc16Update(r, bytes[i]);
      i := i + 1;
    }
    assert octets[..i] == octets;
  }

  // ----- the register is linear

  lemma ShiftLinear(a: Word, b: Word)
    ensures Shift(Xor(a, b)) == Xor(Shift(a), Shift(b))
  {
    assert Half(Xor(a, b)) == Xor(Half(a), Half(b));
  }

  lemma {:induction false} ShiftsLinear(a: Word, b: Word, n: nat)
    ensures Shifts(Xor(a, b), n) == Xor(Shifts(a, n), Shifts(b, n))
  {
    hide Shift;
    if n > 0 {
      ShiftsLinear(a, b, n - 1);
      ShiftLinear(Shifts(a, n - 1), Shifts(b, n - 1));
    }
  }

  /** The difference of two registers develops like a register fed with the difference of the bytes. */
  lemma UpdateLinear(c: Word, d: Word, a: Octet, b: Octet)
    ensures Xor(Update(c, a), Update(d, b)) == Update(Xor(c, d), Xor(a, b))
  {
    hide Shifts;
    ShiftsLinear(Xor(c, Wide(a)), Xor(d, Wide(b)), 8);
    assert Xor(Xor(c, Wide(a)), Xor(d, Wide(b))) == Xor(Xor(c, d), Wide(Xor(a, b)));
  }

  lemma XorIsZero(a: seq<bool>, b: seq<bool>)
    requires |a| == |b|
    ensures Xor(a, b) == Falses(|a|) <==> a == b
  {
    if Xor(a, b) == Falses(|a|) {
      forall i | 0 <= i < |a| ensures a[i] == b[i] {
        assert !Xor(a, b)[i];
      }
    }
  }

  // ----- shifting back

  /** The highest bit after a shift is the one shifted out, so that a clear one tells all. */
  lemma ShiftBack(c: Word)
    requires !Shift(c)[15]
    ensures c == [false] + Shift(c)[..15]
  {}

  /** If the n highest bits are clear after n shifts, the shifts only moved bits down. */
  lemma {:induction false} ShiftsBack(c: Word, n: nat)
    requires n <= 16 && forall i :: 16 - n <= i < 16 ==> !Shifts(c, n)[i]
    ensures c == Falses(n) + Shifts(c, n)[..16 - n]
  {
    if n > 0 {
      var d, y := Shifts(c, n - 1), Shifts(c, n);
      ShiftBack(d);
      assert forall i :: 17 - n <= i < 16 ==> d[i] == y[i - 1];
      ShiftsBack(c, n - 1);
      assert d[..17 - n] == [false] + y[..16 - n];
    }
  }

  lemma {:induction false} ShiftsOfZero(n: nat)
    ensures Shifts(Falses(16), n) == Falses(16)
  {
    if n > 0 {
      ShiftsOfZero(n - 1);
      assert Half(Falses(16)) == Falses(16);
    }
  }

  lemma {:induction false} ShiftsKeepNonZero(c: Word, n: nat)
    requires n <= 16
    ensures Shifts(c, n) == Falses(16) <==> c == Falses(16)
  {
    ShiftsOfZero(n);
    if Shifts(c, n) == Falses(16) {
      ShiftsBack(c, n);
    }
  }

  // ----- appending the checksum

  lemma {:induction false} CrcFromAppend(c: Word, a: seq<Octet>, b: seq<Octet>)
    ensures CrcFrom(c, a + b) == CrcFrom(CrcFrom(c, a), b)
    decreases |b|
  {
    hide Update;
    if b == [] {
      assert a + b == a;
    } else {
      assert (a + b)[..|a + b| - 1] == a + b[..|b| - 1];
      CrcFromAppend(c, a, b[..|b| - 1]);
    }
  }

  lemma CrcOfTwo(c: Word, a: Octet, b: Octet)
    ensures CrcFrom(c, [a, b]) == Update(Update(c, a), b)
  {
    hide Update;
    assert [a, b][..1] == [a] && [a][..0] == [];
    assert CrcFrom(c, [a]) == Update(CrcFrom(c, []), a);
  }

  function Low(c: Word): Octet {
    c[..8]
  }

  function High(c: Word): Octet {
    c[8..]
  }

  lemma {:induction false} ShiftsOfClear(c: Word, n: nat)
    requires n <= 16 && forall i :: 0 <= i < n ==> !c[i]
    ensures Shifts(c, n) == c[n..] + Falses(n)
  {
    if n > 0 {
      ShiftsOfClear(c, n - 1);
      assert Half(c[n - 1..] + Falses(n - 1)) == c[n..] + Falses(n);
    }
  }

  lemma FeedLow(c: Word)
    ensures Update(c, Low(c)) == Wide(High(c))
  {
    hide Shifts;
    ShiftsOfClear(Xor(c, Wide(Low(c))), 8);
    assert Xor(c, Wide(Low(c)))[8..] == High(c);
  }

  lemma FeedHigh(h: Octet)
    ensures Update(Wide(h), h) == Falses(16)
  {
    hide Shifts;
    XorIsZero(Wide(h), Wide(h));
    ShiftsOfZero(8);
  }

  /** A message followed by its checksum, low byte first, checks to 0. */
  lemma ChecksumResidue(data: seq<Octet>)
    ensures Crc(data + [Low(Crc(data)), High(Crc(data))]) == Falses(16)
  {
    var c := Crc(data);
    hide Update, Low, High;
    CrcFromAppend(INITIAL, data, [Low(c), High(c)]);
    CrcOfTwo(c, Low(c), High(c));
    FeedLow(c);
    FeedHigh(High(c));
  }

  // ----- errors within two adjacent bytes

  lemma {:induction false} TailKeepsDifference(c: Word, d: Word, tail: seq<Octet>)
    requires c != d
    ensures CrcFrom(c, tail) != CrcFrom(d, tail)
  {
    if tail != [] {
      var n := |tail| - 1;
      var x, y, a := CrcFrom(c, tail[..n]), CrcFrom(d, tail[..n]), tail[n];
      TailKeepsDifference(c, d, tail[..n]);
      hide CrcFrom;
      UpdateDiffers(x, y, a, a);
    }
  }

  /** Different registers stay different when fed with the same byte, equal ones become different
      when fed with different bytes. */
  lemma UpdateDiffers(c: Word, d: Word, a: Octet, b: Octet)
    requires (c == d) != (a == b)
    ensures Update(c, a) != Update(d, b)
  {
    hide Shifts;
    UpdateLinear(c, d, a, b);
    var diff := Xor(Xor(c, d), Wide(Xor(a, b)));
    XorIsZero(c, d);
    XorIsZero(a, b);
    ShiftsKeepNonZero(diff, 8);
    XorIsZero(Xor(c, d), Wide(Xor(a, b)));
    WideIsZero(Xor(a, b));
    XorIsZero(Update(c, a), Update(d, b));
  }

  lemma WideIsZero(a: Octet)
    ensures Wide(a) == Falses(16) <==> a == Falses(8)
  {
    assert Wide(a)[..8] == a && Falses(16)[..8] == Falses(8);
    assert Falses(8) + Falses(8) == Falses(16);
  }

  /** A byte shifted out whole reaches the high half of the register. */
  lemma ByteReachesHighHalf(x: Octet, y: Octet)
    requires Shifts(Wide(x), 8) == Wide(y)
    ensures x == Falses(8) && y == Falses(8)
  {
    hide Shifts;
    ShiftsBack(Wide(x), 8);
    assert Wide(y)[..8] == y;
    assert Wide(x)[..8] == x && (Falses(8) + y)[..8] == Falses(8);
    assert Wide(x)[8..] == Falses(8) && (Falses(8) + y)[8..] == y;
  }

  lemma TwoBytesDiffer(c: Word, a: Octet, b: Octet, x: Octet, y: Octet)
    requires a != x || b != y
    ensures Update(Update(c, a), b) != Update(Update(c, x), y)
  {
    hide Shifts, Wide, Xor;
    var p, q := Update(c, a), Update(c, x);
    UpdateLinear(c, c, a, x);
    UpdateLinear(p, q, b, y);
    XorIsZero(c, c);
    XorIsZero(a, x);
    XorIsZero(b, y);
    var e := Xor(p, q);
    FromZero(Xor(a, x));
    ShiftsKeepNonZero(Xor(e, Wide(Xor(b, y))), 8);
    XorIsZero(e, Wide(Xor(b, y)));
    if e == Wide(Xor(b, y)) {
      ByteReachesHighHalf(Xor(a, x), Xor(b, y));
    }
    XorIsZero(Update(p, b), Update(q, y));
  }

  lemma FromZero(a: Octet)
    ensures Update(Falses(16), a) == Shifts(Wide(a), 8)
  {
    hide Shifts;
    assert Xor(Falses(16), Wide(a)) == Wide(a);
  }

  /** Two messages of any one length that differ, but only within two adjacent bytes, always have
      different checksums. */
  lemma AdjacentErrorsDetected(head: seq<Octet>, a: Octet, b: Octet, x: Octet, y: Octet, tail: seq<Octet>)
    requires a != x || b != y
    ensures Crc(head + [a, b] + tail) != Crc(head + [x, y] + tail)
  {
    hide Update;
    var c := Crc(head);
    CrcFromAppend(INITIAL, head + [a, b], tail);
    CrcFromAppend(INITIAL, head + [x, y], tail);
    CrcFromAppend(INITIAL, head, [a, b]);
    CrcFromAppend(INITIAL, head, [x, y]);
    CrcOfTwo(c, a, b);
    CrcOfTwo(c, x, y);
    TwoBytesDiffer(c, a, b, x, y);
    TailKeepsDifference(CrcFrom(c, [a, b]), CrcFrom(c, [x, y]), tail);
  }

  // ----- odd numbers of errors

  /** Whether the number of ones is odd. */
  predicate Odd(s: seq<bool>) {
    if s == [] then false else s[0] != Odd(s[1..])
  }

  predicate OddMessage(data: seq<Octet>) {
    if data == [] then false else OddMessage(data[..|data| - 1]) != Odd(data[|data| - 1])
  }

  lemma {:induction false} OddOfXor(a: seq<bool>, b: seq<bool>)
    requires |a| == |b|
    ensures Odd(Xor(a, b)) == (Odd(a) != Odd(b))
  {
    if a != [] {
      OddOfXor(a[1..], b[1..]);
      assert Xor(a, b)[1..] == Xor(a[1..], b[1..]);
    }
  }

  lemma {:induction false} OddOfAppend(a: seq<bool>, b: seq<bool>)
    ensures Odd(a + b) == (Odd(a) != Odd(b))
  {
    if a == [] {
      assert a + b == b;
    } else {
      OddOfAppend(a[1..], b);
      assert (a + b)[1..] == a[1..] + b;
    }
  }

  lemma {:induction false} OddOfFalses(n: nat)
    ensures !Odd(Falses(n))
  {
    if n > 0 {
      OddOfFalses(n - 1);
      assert Falses(n)[1..] == Falses(n - 1);
    }
  }

  function Trues(n: nat): (r: seq<bool>)
    ensures |r| == n && forall i :: 0 <= i < n ==> r[i]
  {
    seq(n, _ => true)
  }

  lemma {:induction false} OddOfTrues(n: nat)
    ensures Odd(Trues(n)) == (n % 2 == 1)
  {
    if n > 0 {
      OddOfTrues(n - 1);
      assert Trues(n)[1..] == Trues(n - 1);
    }
  }

  lemma PolynomialIsOdd()
    ensures Odd(POLYNOMIAL)
  {
    OddOfAppend([true] + Falses(12), [true, false, true]);
    OddOfAppend([true], Falses(12));
    OddOfFalses(12);
    assert POLYNOMIAL == [true] + Falses(12) + [true, false, true];
    assert Odd([true]) && Odd([false, true]) && !Odd([true, false, true]);
  }

  lemma ShiftKeepsParity(c: Word)
    ensures Odd(Shift(c)) == Odd(c)
  {
    OddOfAppend(c[1..], [false]);
    PolynomialIsOdd();
    OddOfXor(Half(c), POLYNOMIAL);
    hide Xor;
    assert !Odd([false]);
  }

  lemma {:induction false} ShiftsKeepParity(c: Word, n: nat)
    ensures Odd(Shifts(c, n)) == Odd(c)
  {
    hide Odd, Shift;
    if n > 0 {
      ShiftsKeepParity(c, n - 1);
      ShiftKeepsParity(Shifts(c, n - 1));
    }
  }

  /** The checksum has the parity of the message. */
  lemma {:induction false} ChecksumParity(data: seq<Octet>)
    ensures Odd(Crc(data)) == OddMessage(data)
  {
    hide Odd, Shifts, Xor, Wide;
    if data == [] {
      OddOfTrues(16);
      assert INITIAL == Trues(16);
    } else {
      var n := |data| - 1;
      var c, a := Crc(data[..n]), data[n];
      ChecksumParity(data[..n]);
      ShiftsKeepParity(Xor(c, Wide(a)), 8);
      OddOfXor(c, Wide(a));
      OddOfWide(a);
    }
  }

  lemma OddOfWide(a: Octet)
    ensures Odd(Wide(a)) == Odd(a)
  {
    OddOfAppend(a, Falses(8));
    OddOfFalses(8);
  }

  /** Messages that differ in an odd number of bits, of whatever lengths, have different checksums. */
  lemma OddErrorsDetected(a: seq<Octet>, b: seq<Octet>)
    requires OddMessage(a) != OddMessage(b)
    ensures Crc(a) != Crc(b)
  {
    ChecksumParity(a);
    ChecksumParity(b);
  }

  // ----- the laws for machine words

  lemma BitsOfLowByte(c: bv16)
    ensures OctetBits((c & 0xFF) as bv8) == Low(Bits(c))
  {
    hide Bit;
    var low := ((c & 0xFF) as bv8) as bv16;
    forall i | 0 <= i < 8 ensures Bits(low)[i] == Bits(c)[i] {
      LowBit(c, MASKS[i]);
    }
  }

  lemma LowBit(c: bv16, mask: bv16)
    requires mask & 0xFF00 == 0
    ensures Bit(((c & 0xFF) as bv8) as bv16, mask) == Bit(c, mask)
  {}

  lemma BitsOfHighByte(c: bv16)
    ensures OctetBits((c >> 8) as bv8) == High(Bits(c))
  {
    hide Bit;
    var high := ((c >> 8) as bv8) as bv16;
    forall i | 0 <= i < 8 ensures Bits(high)[i] == Bits(c)[i + 8] {
      HighBit(c, MASKS[i], MASKS[i + 8]);
    }
  }

  lemma HighBit(c: bv16, mask: bv16, up: bv16)
    requires mask & 0xFF00 == 0 && up == mask << 8
    ensures Bit(((c >> 8) as bv8) as bv16, mask) == Bit(c, up)
  {}

  /** If c is the checksum of a message and r that of the message with the bytes of c behind it, low
      byte first, then r is 0. */
  lemma ResidueIsZero(data: seq<bv8>, c: bv16, r: bv16)
    requires Bits(c) == Crc(Octets(data))
    requires Bits(r) == Crc(Octets(data + [(c & 0xFF) as bv8, (c >> 8) as bv8]))
    ensures r == 0
  {
    hide Bits, OctetBits, CrcFrom;
    BitsOfLowByte(c);
    BitsOfHighByte(c);
    var octets := Octets(data);
    ChecksumResidue(octets);
    assert Octets(data + [(c & 0xFF) as bv8, (c >> 8) as bv8]) == octets + [Low(Crc(octets)), High(Crc(octets))];
    Constants();
    BitsTell(r, 0);
  }

  lemma BytesTell(a: bv8, x: bv8)
    requires OctetBits(a) == OctetBits(x)
    ensures a == x
  {
    BitsOfByte(a);
    BitsOfByte(x);
    hide Bits;
    BitsTell(a as bv16, x as bv16);
  }

  /** The checksums of messages that differ only within two adjacent bytes are different words. */
  lemma AdjacentBytesDetected(head: seq<bv8>, a: bv8, b: bv8, x: bv8, y: bv8, tail: seq<bv8>, c: bv16, d: bv16)
    requires a != x || b != y
    requires Bits(c) == Crc(Octets(head + [a, b] + tail)) && Bits(d) == Crc(Octets(head + [x, y] + tail))
    ensures c != d
  {
    hide Bits, OctetBits, CrcFrom;
    if OctetBits(a) == OctetBits(x) && OctetBits(b) == OctetBits(y) {
      BytesTell(a, x);
      BytesTell(b, y);
    }
    AdjacentErrorsDetected(Octets(head), OctetBits(a), OctetBits(b), OctetBits(x), OctetBits(y), Octets(tail));
    assert Octets(head + [a, b] + tail) == Octets(head) + [OctetBits(a), OctetBits(b)] + Octets(tail);
    assert Octets(head + [x, y] + tail) == Octets(head) + [OctetBits(x), OctetBits(y)] + Octets(tail);
  }
}
