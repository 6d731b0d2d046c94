/** CRC-64 with the generator polynomial of Annex B of ECMA-182, non-reflected, zero initial value.
    A 64-bit word is its bits, most significant first. */
module Crc64 {
  import opened Ordering

  type Bits = seq<bool>

  // ---------------------------------------------------------------- words

  function Zeros(n: nat): (z: Bits)
    ensures |z| == n && forall i | 0 <= i < n :: !z[i]
  {
    seq(n, _ => false)
  }

  function Xor(a: Bits, b: Bits): (r: Bits)
    requires |a| == |b|
    ensures |r| == |a| && forall i | 0 <= i < |a| :: r[i] == (a[i] != b[i])
  {
    seq(|a|, i requires 0 <= i < |a| => a[i] != b[i])
  }

  /** The `n` low bits of a number. */
  function BitsOf(v: nat, n: nat): (b: Bits)
    ensures |b| == n
  {
    if n == 0 then [] else BitsOf(v / 2, n - 1) + [v % 2 == 1]
  }

  function NumberOf(b: Bits): nat {
    if b == [] then 0 else 2 * NumberOf(b[..|b| - 1]) + if b[|b| - 1] then 1 else 0
  }

  lemma {:induction false} BitsOfNumber(b: Bits)
    ensures BitsOf(NumberOf(b), |b|) == b
  {
    if b != [] {
      var n := |b| - 1;
      BitsOfNumber(b[..n]);
      assert NumberOf(b) / 2 == NumberOf(b[..n]) && (NumberOf(b) % 2 == 1) == b[n];
      assert b == b[..n] + [b[n]];
    }
  }

  function PowerOfTwo(n: nat): nat { if n == 0 then 1 else 2 * PowerOfTwo(n - 1) }

  lemma {:induction false} NumberBound(b: Bits)
    ensures NumberOf(b) < PowerOfTwo(|b|)
  {
    if b != [] { NumberBound(b[..|b| - 1]); }
  }

  lemma {:induction false} NumberOfBits(v: nat, n: nat)
    requires v < PowerOfTwo(n)
    ensures NumberOf(BitsOf(v, n)) == v
  {
    if n > 0 {
      NumberOfBits(v / 2, n - 1);
      assert BitsOf(v, n)[..n - 1] == BitsOf(v / 2, n - 1);
    }
  }

  // ---------------------------------------------------------------- polynomial long division

  /** The generator without its leading x^64 term. */
  const POLY: Bits := BitsOf(0x42F0_E1EB_A9EA_3693, 64)

  /** The terms below x^64 of the generator polynomial of Annex B of ECMA-182, by their exponents. */
  predicate IsTerm(e: nat) {
    || e == 62 || e == 57 || e == 55 || e == 54 || e == 53 || e == 52 || e == 47 || e == 46 || e == 45 || e == 40
    || e == 39 || e == 38 || e == 37 || e == 35 || e == 33 || e == 32 || e == 31 || e == 29 || e == 27 || e == 24
    || e == 23 || e == 22 || e == 21 || e == 19 || e == 17 || e == 13 || e == 12 || e == 10 || e == 9 || e == 7
    || e == 4 || e == 1 || e == 0
  }

  /** The coefficients of that polynomial below x^64, highest first. */
  function Generator(): (p: Bits)
    ensures |p| == 64 && forall i | 0 <= i < 64 :: p[i] <==> IsTerm(63 - i)
  {
    seq(64, i requires 0 <= i < 64 => IsTerm(63 - i))
  }

  /** The remainder of a polynomial over GF(2) modulo x^64 + `generator`, by schoolbook long division:
      strike out the leading term, subtracting the generator under it when its coefficient is one. */
  function Remainder(dividend: Bits, generator: Bits): Bits
    requires |generator| == 64
    decreases |dividend|
  {
    if |dividend| <= 64 then dividend
    else if dividend[0] then Remainder(Xor(dividend[1..65], generator) + dividend[65..], generator)
    else Remainder(dividend[1..], generator)
  }

  /** The bits of a number: the one at place i from the right counts 2^i. */
  lemma {:induction false} BitAt(v: nat, n: nat, i: nat)
    requires i < n
    ensures PowerOfTwo(i) > 0 && BitsOf(v, n)[n - 1 - i] == (v / PowerOfTwo(i) % 2 == 1)
    decreases n
  {
    PowerPositive(i);
    if i > 0 {
      BitAt(v / 2, n - 1, i - 1);
      HalfFirst(v, PowerOfTwo(i - 1));
    }
  }

  lemma {:induction false} PowerPositive(i: nat)
    ensures PowerOfTwo(i) > 0
  {
    if i > 0 { PowerPositive(i - 1); }
  }

  lemma HalfFirst(v: nat, d: nat)
    requires d > 0
    ensures v / 2 / d == v / (2 * d)
  {
    var h, q := v / 2, v / 2 / d;
    assert q * d <= h < q * d + d;
    assert v / (2 * d) == q by {
      assert (2 * d) * q == 2 * (q * d);
      Quotient(v, 2 * d, q);
    }
  }

  lemma Quotient(v: nat, d: nat, q: nat)
    requires d > 0 && d * q <= v < d * q + d
    ensures v / d == q
  {
    var e := v / d;
    assert d * e <= v < d * e + d;
    assert d * (e + 1 - q) == d * e + d - d * q && d * (q + 1 - e) == d * q + d - d * e;
    PositiveFactor(d, e + 1 - q);
    PositiveFactor(d, q + 1 - e);
  }

  lemma PositiveFactor(d: nat, x: int)
    requires d > 0 && d * x > 0
    ensures x > 0
  {
  }

  function Coefficient(e: int): nat { if e >= 0 && IsTerm(e) then 1 else 0 }

  /** One more coefficient of the generator, read as a binary number. */
  lemma NextDigit(n: nat, v: nat)
    requires n < 64 && NumberOf(Generator()[..n]) == v
    ensures NumberOf(Generator()[..n + 1]) == 2 * v + Coefficient(63 - n)
  {
    hide IsTerm;
    var p := Generator()[..n + 1];
    assert p[..n] == Generator()[..n];
  }

  lemma NextFour(n: nat, v: nat)
    requires n + 4 <= 64 && NumberOf(Generator()[..n]) == v
    ensures NumberOf(Generator()[..n + 4]) == 16 * v + 8 * Coefficient(63 - n) + 4 * Coefficient(62 - n)
                                              + 2 * Coefficient(61 - n) + Coefficient(60 - n)
  {
    hide Coefficient, Generator, NumberOf;
    NextDigit(n, v);
    NextDigit(n + 1, 2 * v + Coefficient(63 - n));
    NextDigit(n + 2, 4 * v + 2 * Coefficient(63 - n) + Coefficient(62 - n));
    NextDigit(n + 3, 8 * v + 4 * Coefficient(63 - n) + 2 * Coefficient(62 - n) + Coefficient(61 - n));
  }

  lemma Terms16()
    ensures NumberOf(Generator()[..16]) == 0x42F0
  {
    assert NumberOf(Generator()[..0]) == 0;
    hide Generator, NumberOf;
    NextFour(0, 0); NextFour(4, 0x4);
    NextFour(8, 0x42); NextFour(12, 0x42F);
  }

  lemma Terms32()
    ensures NumberOf(Generator()[..32]) == 0x42F0_E1EB
  {
    Terms16();
    hide Generator, NumberOf;
    NextFour(16, 0x42F0); NextFour(20, 0x4_2F0E);
    NextFour(24, 0x42_F0E1); NextFour(28, 0x42F_0E1E);
  }

  lemma Terms48()
    ensures NumberOf(Generator()[..48]) == 0x42F0_E1EB_A9EA
  {
    Terms32();
    hide Generator, NumberOf;
    NextFour(32, 0x42F0_E1EB); NextFour(36, 0x4_2F0E_1EBA);
    NextFour(40, 0x42_F0E1_EBA9); NextFour(44, 0x42F_0E1E_BA9E);
  }

  lemma Terms64()
    ensures NumberOf(Generator()[..64]) == 0x42F0_E1EB_A9EA_3693
  {
    Terms48();
    hide Generator, NumberOf;
    NextFour(48, 0x42F0_E1EB_A9EA); NextFour(52, 0x4_2F0E_1EBA_9EA3);
    NextFour(56, 0x42_F0E1_EBA9_EA36); NextFour(60, 0x42F_0E1E_BA9E_A369);
  }

  /** The constant is the generator of ECMA-182. */
  lemma PolyTerms()
    ensures POLY == Generator()
  {
    BitsOfNumber(Generator());
    Terms64();
    hide Generator, NumberOf, BitsOf;
    assert Generator()[..64] == Generator();
  }

  function ByteBits(b: Byte): Bits { BitsOf(b, 8) }

  function MessageBits(m: Bytes): Bits { if m == [] then [] else ByteBits(m[0]) + MessageBits(m[1..]) }

  /** Bit j of byte i of a message, both counted from the front, is the one that counts 2^(7-j) in the byte. */
  lemma {:induction false} MessageBit(m: Bytes, i: nat, j: nat)
    requires i < |m| && j < 8
    ensures PowerOfTwo(7 - j) > 0 && |MessageBits(m)| == 8 * |m|
    ensures MessageBits(m)[8 * i + j] == (m[i] / PowerOfTwo(7 - j) % 2 == 1)
  {
    hide BitsOf;
    BitAt(m[0], 8, 7 - j);
    if |m| > 1 { MessageBit(m[1..], if i == 0 then 0 else i - 1, j); }
  }

  // ---------------------------------------------------------------- the register and the table

  /** One bit-serial step of the register. */
  function Shift(r: Bits): (s: Bits)
    requires |r| == 64
    ensures |s| == 64
  {
    if r[0] then Xor(r[1..] + [false], POLY) else r[1..] + [false]
  }

  function Shifts(r: Bits, n: nat): (s: Bits)
    requires |r| == 64
    ensures |s| == 64
    decreases n
  {
    if n == 0 then r else Shifts(Shift(r), n - 1)
  }

  /** Entry `i` of the lookup table: the byte in the top position, shifted out. */
  function Entry(i: Byte): (s: Bits)
    ensures |s| == 64
  {
    Shifts(ByteBits(i) + Zeros(56), 8)
  }

  /** (crc >> 56) ^ byte. */
  function Index(crc: Bits, b: Byte): Byte
    requires |crc| == 64
  {
    var top := Xor(crc[..8], ByteBits(b));
    NumberBound(top);
    assert PowerOfTwo(8) == 256;
    NumberOf(top)
  }

  /** (crc << 8) ^ table[index]. */
  function TableStep(crc: Bits, b: Byte): (s: Bits)
    requires |crc| == 64
    ensures |s| == 64
  {
    Xor(crc[8..] + Zeros(8), Entry(Index(crc, b)))
  }

  function Crc(data: Bytes, crc: Bits): (s: Bits)
    requires |crc| == 64
    ensures |s| == 64
    decreases |data|
  {
    if data == [] then crc else Crc(data[1..], TableStep(crc, data[0]))
  }

  // ---------------------------------------------------------------- one table step is eight bit steps

  lemma ShiftLinear(a: Bits, b: Bits)
    requires |a| == 64 && |b| == 64
    ensures Shift(Xor(a, b)) == Xor(Shift(a), Shift(b))
  {
  }

  lemma {:induction false} ShiftsLinear(a: Bits, b: Bits, n: nat)
    requires |a| == 64 && |b| == 64
    ensures Shifts(Xor(a, b), n) == Xor(Shifts(a, n), Shifts(b, n))
    decreases n
  {
    if n > 0 {
      ShiftLinear(a, b);
      ShiftsLinear(Shift(a), Shift(b), n - 1);
    }
  }

  /** Leading zeros shift out without feedback. */
  lemma ZerosShiftOut(n: nat, low: Bits)
    requires n + |low| == 64
    ensures Shifts(Zeros(n) + low, n) == low + Zeros(n)
  {
    assert Zeros(n) + low + Zeros(0) == Zeros(n) + low;
    ShiftedOut(n, low, n);
  }

  lemma {:induction false} ShiftedOut(n: nat, low: Bits, k: nat)
    requires k <= n && n + |low| == 64
    ensures Shifts(Zeros(k) + low + Zeros(n - k), k) == low + Zeros(n)
    decreases k
  {
    var r := Zeros(k) + low + Zeros(n - k);
    if k == 0 {
      assert r == low + Zeros(n);
    } else {
      assert !r[0];
      assert Shift(r) == Zeros(k - 1) + low + Zeros(n - (k - 1));
      ShiftedOut(n, low, k - 1);
    }
  }

  lemma TableStepIsShifts(crc: Bits, b: Byte)
    requires |crc| == 64
    ensures TableStep(crc, b) == Shifts(Xor(crc, ByteBits(b) + Zeros(56)), 8)
  {
    var top := Xor(crc[..8], ByteBits(b));
    BitsOfNumber(top);
    assert ByteBits(Index(crc, b)) == top;
    var hi, lo := top + Zeros(56), Zeros(8) + crc[8..];
    assert Xor(crc, ByteBits(b) + Zeros(56)) == Xor(lo, hi);
    ShiftsLinear(lo, hi, 8);
    ZerosShiftOut(8, crc[8..]);
  }

  // ---------------------------------------------------------------- the register divides

  /** The register fed with message bits, most significant first. */
  function Serial(r: Bits, message: Bits): (s: Bits)
    requires |r| == 64
    ensures |s| == 64
    decreases |message|
  {
    if message == [] then r else Serial(Shift(Xor(r, [message[0]] + Zeros(63))), message[1..])
  }

  /** `r` added to the leading 64 coefficients of `s`. */
  function AddFront(r: Bits, s: Bits): Bits
    requires |r| == 64 <= |s|
  {
    Xor(r, s[..64]) + s[64..]
  }

  /** The bit-serial register computes the remainder of the message times x^64. */
  lemma {:induction false} SerialIsRemainder(r: Bits, message: Bits)
    requires |r| == 64
    ensures Remainder(AddFront(r, message + Zeros(64)), POLY) == Serial(r, message)
    decreases |message|
  {
    var s := message + Zeros(64);
    if message == [] {
      assert AddFront(r, s) == r;
    } else {
      var rest := message[1..] + Zeros(64);
      assert s == [message[0]] + rest;
      var d := AddFront(r, s);
      var next := Shift(Xor(r, [message[0]] + Zeros(63)));
      DivisionStep(r, message[0], rest);
      SerialIsRemainder(next, message[1..]);
    }
  }

  lemma DivisionStep(r: Bits, bit: bool, rest: Bits)
    requires |r| == 64 <= |rest|
    ensures Remainder(AddFront(r, [bit] + rest), POLY)
            == Remainder(AddFront(Shift(Xor(r, [bit] + Zeros(63))), rest), POLY)
  {
    var d, x := AddFront(r, [bit] + rest), Xor(r, [bit] + Zeros(63));
    var next := Shift(x);
    assert d[0] == x[0];
    var y := x[1..] + [false];
    forall j | 0 <= j < 64 ensures d[1..65][j] == (y[j] != rest[j]) {
      assert ([bit] + rest)[j + 1] == rest[j];
    }
    assert d[1..65] == Xor(y, rest[..64]);
    assert d[65..] == rest[64..];
    if d[0] {
      assert Xor(d[1..65], POLY) + d[65..] == AddFront(next, rest);
    } else {
      assert d[1..] == AddFront(next, rest);
    }
  }

  /** Feeding up to 64 bits one by one is adding them at the top and shifting. */
  lemma {:induction false} SerialIsShifts(r: Bits, message: Bits)
    requires |r| == 64 && |message| <= 64
    ensures Serial(r, message) == Shifts(Xor(r, message + Zeros(64 - |message|)), |message|)
    decreases |message|, 1
  {
    var n := |message|;
    if n == 0 {
      assert Xor(r, message + Zeros(64)) == r;
    } else {
      SerialStep(r, message);
    }
  }

  lemma {:induction false} SerialStep(r: Bits, message: Bits)
    requires |r| == 64 && 0 < |message| <= 64
    ensures Serial(r, message) == Shifts(Xor(r, message + Zeros(64 - |message|)), |message|)
    decreases |message|, 0
  {
    hide Xor, Shift, Zeros;
    var n := |message|;
    var x, rest := Xor(r, [message[0]] + Zeros(63)), message[1..];
    var low := rest + Zeros(64 - n);
    SplitHead(r, message, low);
    ShiftLinear(x, [false] + low);
    SerialIsShifts(Shift(x), rest);
  }

  lemma SplitHead(r: Bits, message: Bits, low: Bits)
    requires |r| == 64 && 0 < |message| <= 64 && low == message[1..] + Zeros(64 - |message|)
    ensures Xor(r, message + Zeros(64 - |message|)) == Xor(Xor(r, [message[0]] + Zeros(63)), [false] + low)
    ensures Shift([false] + low) == message[1..] + Zeros(64 - (|message| - 1))
  {
  }

  lemma {:induction false} SerialConcat(r: Bits, a: Bits, b: Bits)
    requires |r| == 64
    ensures Serial(r, a + b) == Serial(Serial(r, a), b)
    decreases |a|
  {
    if a == [] {
      assert a + b == b;
    } else {
      assert (a + b)[1..] == a[1..] + b;
      SerialConcat(Shift(Xor(r, [a[0]] + Zeros(63))), a[1..], b);
    }
  }

  /** The table-driven checksum is the bit-serial one. */
  lemma {:induction false} CrcIsSerial(data: Bytes, crc: Bits)
    requires |crc| == 64
    ensures Crc(data, crc) == Serial(crc, MessageBits(data))
    decreases |data|
  {
    if data != [] {
      TableStepIsShifts(crc, data[0]);
      SerialIsShifts(crc, ByteBits(data[0]));
      CrcIsSerial(data[1..], TableStep(crc, data[0]));
      SerialConcat(crc, ByteBits(data[0]), MessageBits(data[1..]));
    }
  }

  /** The checksum from zero is the remainder of message * x^64 by the generator of ECMA-182, given by its terms. */
  lemma CrcIsRemainder(data: Bytes)
    ensures Crc(data, Zeros(64)) == Remainder(MessageBits(data) + Zeros(64), Generator())
  {
    var s := MessageBits(data) + Zeros(64);
    PolyTerms();
    hide AddFront, Remainder, MessageBits, Generator, BitsOf;
    CrcIsSerial(data, Zeros(64));
    SerialIsRemainder(Zeros(64), MessageBits(data));
    AddZeros(s);
  }

  lemma AddZeros(s: Bits)
    requires |s| >= 64
    ensures AddFront(Zeros(64), s) == s
  {
  }

  /** Checksums chain over concatenation. */
  lemma {:induction false} CrcConcat(a: Bytes, b: Bytes, crc: Bits)
    requires |crc| == 64
    ensures Crc(a + b, crc) == Crc(b, Crc(a, crc))
    decreases |a|
  {
    if a == [] {
      assert a + b == b;
    } else {
      assert (a + b)[1..] == a[1..] + b;
      CrcConcat(a[1..], b, TableStep(crc, a[0]));
    }
  }

  // ---------------------------------------------------------------- error detection

  lemma LowBit(v: nat, n: nat)
    requires n > 0
    ensures BitsOf(v, n)[n - 1] == (v % 2 == 1)
  {
  }

  /** The generator has constant term one, so a shift loses nothing. */
  lemma ShiftInjective(a: Bits, b: Bits)
    requires |a| == 64 && |b| == 64 && Shift(a) == Shift(b)
    ensures a == b
  {
    LowBit(0x42F0_E1EB_A9EA_3693, 64);
    hide BitsOf;
    assert POLY[63];
    assert Shift(a)[63] == a[0] && Shift(b)[63] == b[0];
    forall i | 1 <= i < 64 ensures a[i] == b[i] {
      assert Shift(a)[i - 1] == (a[i] != (a[0] && POLY[i - 1]));
      assert Shift(b)[i - 1] == (b[i] != (b[0] && POLY[i - 1]));
    }
  }

  lemma {:induction false} ShiftsInjective(a: Bits, b: Bits, n: nat)
    requires |a| == 64 && |b| == 64 && Shifts(a, n) == Shifts(b, n)
    ensures a == b
    decreases n
  {
    if n > 0 {
      ShiftsInjective(Shift(a), Shift(b), n - 1);
      ShiftInjective(a, b);
    }
  }

  lemma XorCancels(r: Bits, a: Bits, b: Bits)
    requires |r| == |a| == |b| && Xor(r, a) == Xor(r, b)
    ensures a == b
  {
    forall i | 0 <= i < |a| ensures a[i] == b[i] {
      assert Xor(r, a)[i] == Xor(r, b)[i];
    }
  }

  /** Different states stay different through the same bytes. */
  lemma {:induction false} CrcInjectiveInState(data: Bytes, a: Bits, b: Bits)
    requires |a| == 64 && |b| == 64 && Crc(data, a) == Crc(data, b)
    ensures a == b
    decreases |data|
  {
    if data != [] {
      CrcInjectiveInState(data[1..], TableStep(a, data[0]), TableStep(b, data[0]));
      TableStepIsShifts(a, data[0]);
      TableStepIsShifts(b, data[0]);
      var x := ByteBits(data[0]) + Zeros(56);
      ShiftsInjective(Xor(a, x), Xor(b, x), 8);
      assert Xor(a, x) == Xor(x, a) && Xor(b, x) == Xor(x, b);
      XorCancels(x, a, b);
    }
  }

  lemma {:induction false} MessageBitsInjective(a: Bytes, b: Bytes)
    requires |a| == |b| && MessageBits(a) == MessageBits(b)
    ensures a == b
    decreases |a|
  {
    if a != [] {
      assert PowerOfTwo(8) == 256;
      assert ByteBits(a[0]) == MessageBits(a)[..8] && ByteBits(b[0]) == MessageBits(b)[..8];
      NumberOfBits(a[0], 8);
      NumberOfBits(b[0], 8);
      assert MessageBits(a[1..]) == MessageBits(a)[8..] && MessageBits(b[1..]) == MessageBits(b)[8..];
      MessageBitsInjective(a[1..], b[1..]);
      assert a == [a[0]] + a[1..] && b == [b[0]] + b[1..];
    }
  }

  /** Different register states stay different through the same bits. */
  lemma {:induction false} SerialInjectiveInState(a: Bits, b: Bits, message: Bits)
    requires |a| == 64 && |b| == 64 && Serial(a, message) == Serial(b, message)
    ensures a == b
    decreases |message|
  {
    if message != [] {
      var x := [message[0]] + Zeros(63);
      SerialInjectiveInState(Shift(Xor(a, x)), Shift(Xor(b, x)), message[1..]);
      ShiftInjective(Xor(a, x), Xor(b, x));
      assert Xor(a, x) == Xor(x, a) && Xor(b, x) == Xor(x, b);
      XorCancels(x, a, b);
    }
  }

  /** From one state, up to 64 different bits lead to different states. */
  lemma BurstInjective(state: Bits, d: Bits, e: Bits)
    requires |state| == 64 && |d| == |e| <= 64 && Serial(state, d) == Serial(state, e)
    ensures d == e
  {
    hide Serial, Shifts, Xor;
    SerialIsShifts(state, d);
    SerialIsShifts(state, e);
    var z := Zeros(64 - |d|);
    ShiftsInjective(Xor(state, d + z), Xor(state, e + z), |d|);
    XorCancels(state, d + z, e + z);
    assert d == (d + z)[..|d|] && e == (e + z)[..|e|];
  }

  /** Two contents of one length whose bits agree except in the `n` places from `k` on. */
  ghost predicate DifferWithin(a: Bytes, b: Bytes, k: nat, n: nat) {
    && |a| == |b| && |MessageBits(a)| == |MessageBits(b)|
    && forall i | 0 <= i < |MessageBits(a)| && (i < k || i >= k + n) :: MessageBits(a)[i] == MessageBits(b)[i]
  }

  lemma SerialSplit(crc: Bits, m: Bits, lo: nat, hi: nat)
    requires |crc| == 64 && lo <= hi <= |m|
    ensures Serial(crc, m) == Serial(Serial(Serial(crc, m[..lo]), m[lo..hi]), m[hi..])
  {
    assert m == m[..hi] + m[hi..] && m[..hi] == m[..lo] + m[lo..hi];
    SerialConcat(crc, m[..hi], m[hi..]);
    SerialConcat(crc, m[..lo], m[lo..hi]);
  }

  /** Every burst is detected: contents that differ only within 64 consecutive bits, wherever these start, have the
      same checksum if and only if they are equal. */
  lemma DetectsBurst(a: Bytes, b: Bytes, k: nat, crc: Bits)
    requires |crc| == 64 && DifferWithin(a, b, k, 64)
    ensures Crc(a, crc) == Crc(b, crc) <==> a == b
  {
    hide Serial, Crc, MessageBits;
    var s, t := MessageBits(a), MessageBits(b);
    CrcIsSerial(a, crc);
    CrcIsSerial(b, crc);
    var lo, hi := if k < |s| then k else |s|, if k + 64 < |s| then k + 64 else |s|;
    SerialSplit(crc, s, lo, hi);
    SerialSplit(crc, t, lo, hi);
    assert s[..lo] == t[..lo] && s[hi..] == t[hi..];
    if Crc(a, crc) == Crc(b, crc) {
      var state := Serial(crc, s[..lo]);
      SerialInjectiveInState(Serial(state, s[lo..hi]), Serial(state, t[lo..hi]), s[hi..]);
      BurstInjective(state, s[lo..hi], t[lo..hi]);
      assert s == s[..lo] + s[lo..hi] + s[hi..] && t == t[..lo] + t[lo..hi] + t[hi..];
      MessageBitsInjective(a, b);
    }
  }

  // ---------------------------------------------------------------- the code

  /** Fills the 256-entry lookup table. */
  method BuildTable() returns (entries: array<Bits>)
    ensures fresh(entries) && entries.Length == 256
    ensures forall i: Byte | 0 <= i < 256 :: entries[i] == Entry(i)
  {
    entries := new Bits[256](_ => []);
    for i := 0 to 256
      invariant forall j: Byte | 0 <= j < i :: entries[j] == Entry(j)
    {
      var crc := ByteBits(i) + Zeros(56);
      for bit := 0 to 8
        modifies {}
        invariant |crc| == 64 && Shifts(crc, 8 - bit) == Entry(i)
      {
        crc := if crc[0] then Xor(crc[1..] + [false], POLY) else crc[1..] + [false];
      }
      entries[i] := crc;
    }
  }

  /** The table-driven checksum of `data` continued from `crc`. */
  method Crc64Ecma(entries: array<Bits>, data: Bytes, initial: Bits) returns (crc: Bits)
    requires entries.Length == 256 && |initial| == 64
    requires forall i: Byte | 0 <= i < 256 :: entries[i] == Entry(i)
    ensures |crc| == 64 && crc == Crc(data, initial)
    ensures initial == Zeros(64) ==> crc == Remainder(MessageBits(data) + Zeros(64), Generator())
  {
    CrcIsRemainder(data);
    hide Remainder, MessageBits, Generator;
    crc := initial;
    for i := 0 to |data|
      invariant |crc| == 64 && Crc(data[i..], crc) == Crc(data, initial)
    {
      assert data[i..][0] == data[i] && data[i..][1..] == data[i + 1..];
      crc := Xor(crc[8..] + Zeros(8), entries[Index(crc, data[i])]);
    }
    assert data[|data|..] == [];
  }
}
