/**
 The two CRC-64 computations: the table-driven one that works from the low end of the register
 (asm/aasm-lib.cpp, `crc64`, with the table of asm/todata/_crc64_tab.to.c), and the bit-by-bit one
 that works from the high end (lib/c/crc64.c, with `BitReflect64` of lib/c/binary.c).

 Registers are written as their bits, lowest bit first. The two agree up to reflection, for every
 polynomial, every start value and every byte string.
 */
module Crc64 {

  type Bits = seq<bool>

  /** A 64-bit register. */
  type Register = x: Bits | |x| == 64 witness seq(64, _ => false)
  type Octet = x: Bits | |x| == 8 witness seq(8, _ => false)

  function Zeros(n: nat): (z: Bits)
    ensures |z| == n && forall i :: 0 <= i < n ==> !z[i]
  {
    seq(n, _ => false)
  }

  const ZERO: Register := Zeros(64)

  function Xor(a: Bits, b: Bits): (r: Bits)
    requires |a| == |b|
    ensures |r| == |a| && forall i :: 0 <= i < |a| ==> r[i] == (a[i] != b[i])
  {
    seq(|a|, i requires 0 <= i < |a| => a[i] != b[i])
  }

  /** x >> 1 */
  function Down(x: Register): Register {
    x[1..] + [false]
  }

  /** x << 1 */
  function Up(x: Register): Register {
    [false] + x[..63]
  }

  /** A byte in the low end of a register. */
  function Low(b: Octet): Register {
    b + Zeros(56)
  }

  /** A byte in the high end of a register: b << 56. */
  function High(b: Octet): Register {
    Zeros(56) + b
  }

  // ---------- Single steps ----------

  /** One bit from the low end. */
  function StepLow(poly: Register, x: Register): Register {
    Xor(Down(x), if x[0] then poly else ZERO)
  }

  /** One bit from the high end. */
  function StepHigh(poly: Register, x: Register): Register {
    Xor(Up(x), if x[63] then poly else ZERO)
  }

  function StepsLow(poly: Register, n: nat, x: Register): Register {
    if n == 0 then x else StepsLow(poly, n - 1, StepLow(poly, x))
  }

  function StepsHigh(poly: Register, n: nat, x: Register): Register {
    if n == 0 then x else StepsHigh(poly, n - 1, StepHigh(poly, x))
  }

  /** Bits in the opposite order. */
  function Mirrored(x: Bits): (r: Bits)
    ensures |r| == |x| && forall i :: 0 <= i < |x| ==> r[i] == x[|x| - 1 - i]
  {
    seq(|x|, i requires 0 <= i < |x| => x[|x| - 1 - i])
  }

  lemma MirroredTwice(x: Bits)
    ensures Mirrored(Mirrored(x)) == x
  {
  }

  lemma MirroredXor(a: Bits, b: Bits)
    requires |a| == |b|
    ensures Mirrored(Xor(a, b)) == Xor(Mirrored(a), Mirrored(b))
  {
  }

  /** A step from the high end, seen in the mirror, is a step from the low end. */
  lemma StepMirrored(poly: Register, x: Register)
    ensures Mirrored(StepHigh(poly, x)) == StepLow(Mirrored(poly), Mirrored(x))
  {
    assert Mirrored(Up(x)) == Down(Mirrored(x));
    assert Mirrored(ZERO) == ZERO;
    MirroredXor(Up(x), if x[63] then poly else ZERO);
  }

  lemma {:induction false} StepsMirrored(poly: Register, n: nat, x: Register)
    ensures Mirrored(StepsHigh(poly, n, x)) == StepsLow(Mirrored(poly), n, Mirrored(x))
  {
    hide StepHigh, StepLow, Mirrored;
    if n > 0 {
      StepMirrored(poly, x);
      StepsMirrored(poly, n - 1, StepHigh(poly, x));
    }
  }

  // ---------- The table ----------

  /** Steps are linear over exclusive or. */
  lemma StepLinear(poly: Register, a: Register, b: Register)
    ensures StepLow(poly, Xor(a, b)) == Xor(StepLow(poly, a), StepLow(poly, b))
  {
    var l, r := StepLow(poly, Xor(a, b)), Xor(StepLow(poly, a), StepLow(poly, b));
    assert forall i :: 0 <= i < 63 ==> Down(Xor(a, b))[i] == (Down(a)[i] != Down(b)[i]);
    assert forall i :: 0 <= i < 64 ==> l[i] == r[i];
  }

  lemma {:induction false} StepsLinear(poly: Register, n: nat, a: Register, b: Register)
    ensures StepsLow(poly, n, Xor(a, b)) == Xor(StepsLow(poly, n, a), StepsLow(poly, n, b))
  {
    if n > 0 {
      StepLinear(poly, a, b);
      StepsLinear(poly, n - 1, StepLow(poly, a), StepLow(poly, b));
    }
  }

  /** x >> n */
  function DownBy(x: Register, n: nat): Register
    requires n <= 64
  {
    x[n..] + Zeros(n)
  }

  /** While the low bits are clear, steps only shift. */
  lemma {:induction false} StepsShift(poly: Register, n: nat, x: Register)
    requires n <= 64 && forall i :: 0 <= i < n ==> !x[i]
    ensures StepsLow(poly, n, x) == DownBy(x, n)
  {
    if n == 0 {
      assert x[0..] + Zeros(0) == x;
    } else {
      assert StepLow(poly, x) == Down(x);
      StepsShift(poly, n - 1, Down(x));
      assert DownBy(Down(x), n - 1) == DownBy(x, n);
    }
  }

  function Number(b: Bits): nat {
    if b == [] then 0 else (if b[0] then 1 else 0) + 2 * Number(b[1..])
  }

  function BitsOf(n: nat, len: nat): (b: Bits)
    ensures |b| == len
  {
    if len == 0 then [] else [n % 2 == 1] + BitsOf(n / 2, len - 1)
  }

  lemma {:induction false} BitsOfNumber(b: Bits)
    ensures BitsOf(Number(b), |b|) == b
  {
    if b != [] {
      BitsOfNumber(b[1..]);
      assert b == [b[0]] + b[1..];
    }
  }

  lemma {:induction false} NumberBound(b: Bits, limit: nat)
    requires |b| <= 8 && limit == [1, 2, 4, 8, 16, 32, 64, 128, 256][|b|]
    ensures Number(b) < limit
  {
    if b != [] {
      NumberBound(b[1..], [1, 2, 4, 8, 16, 32, 64, 128, 256][|b| - 1]);
    }
  }

  function ByteNumber(b: Octet): (n: nat)
    ensures n < 256
  {
    NumberBound(b, 256);
    Number(b)
  }

  function ByteOf(n: nat): Octet {
    BitsOf(n, 8)
  }

  ghost predicate IsTable(poly: Register, table: seq<Register>) {
    |table| == 256 && forall i :: 0 <= i < 256 ==> table[i] == StepsLow(poly, 8, Low(ByteOf(i)))
  }

  /** One byte by the table: table[(byte)crc ^ ch] ^ (crc >> 8). */
  function TableStep(table: seq<Register>, crc: Register, b: Octet): Register
    requires |table| == 256
  {
    Xor(table[ByteNumber(Xor(crc[..8], b))], DownBy(crc, 8))
  }

  /** One table step does the work of eight bit steps. */
  lemma TableStepIsEightSteps(poly: Register, table: seq<Register>, crc: Register, b: Octet)
    requires IsTable(poly, table)
    ensures TableStep(table, crc, b) == StepsLow(poly, 8, Xor(crc, Low(b)))
  {
    var low: Octet := Xor(crc[..8], b);
    var high: Register := Zeros(8) + crc[8..];
    assert Xor(crc, Low(b)) == Xor(Low(low), high);
    StepsLinear(poly, 8, Low(low), high);
    StepsShift(poly, 8, high);
    assert DownBy(high, 8) == DownBy(crc, 8);
    BitsOfNumber(low);
  }

  // ---------- Whole strings ----------

  /** One byte from the low end. */
  function LowByte(poly: Register, crc: Register, b: Octet): Register {
    StepsLow(poly, 8, Xor(crc, Low(b)))
  }

  /** One byte from the high end; `b` is in the order it is shifted in. */
  function HighByte(poly: Register, crc: Register, b: Octet): Register {
    StepsHigh(poly, 8, Xor(crc, High(b)))
  }

  function LowCrc(poly: Register, crc: Register, data: seq<Octet>): Register
    decreases |data|
  {
    if data == [] then crc else LowCrc(poly, LowByte(poly, crc, data[0]), data[1..])
  }

  /** The high-end register after a string; with `reflected` each byte is shifted in lowest bit first. */
  function HighCrc(poly: Register, crc: Register, data: seq<Octet>, reflected: bool): Register
    decreases |data|
  {
    if data == [] then crc
    else HighCrc(poly, HighByte(poly, crc, if reflected then Mirrored(data[0]) else data[0]), data[1..], reflected)
  }

  lemma ByteMirrored(poly: Register, crc: Register, b: Octet)
    ensures Mirrored(HighByte(poly, crc, Mirrored(b))) == LowByte(Mirrored(poly), Mirrored(crc), b)
  {
    assert Mirrored(High(Mirrored(b))) == Low(b);
    MirroredXor(crc, High(Mirrored(b)));
    StepsMirrored(poly, 8, Xor(crc, High(Mirrored(b))));
  }

  /** The two computations are mirror images, whatever the polynomial, the start value and the string. */
  lemma {:induction false} CrcMirrored(poly: Register, crc: Register, data: seq<Octet>)
    ensures Mirrored(HighCrc(poly, crc, data, true)) == LowCrc(Mirrored(poly), Mirrored(crc), data)
    decreases |data|
  {
    if data != [] {
      ByteMirrored(poly, crc, data[0]);
      CrcMirrored(poly, HighByte(poly, crc, Mirrored(data[0])), data[1..]);
    }
  }

  // ---------- The loops ----------

  /** What `BitReflect64` computes: the low `times` bits reversed and nothing else, or for 0 the value itself. */
  function Reflected(times: nat, val: Register): Register
    requires times <= 64
  {
    if times == 0 then val else Mirrored(val[..times]) + Zeros(64 - times)
  }

  method BitReflect64(times: nat, val: Register) returns (r: Register)
    requires times <= 64
    ensures r == Reflected(times, val)
  {
    if times == 0 {
      return val;
    }
    var v := val;
    r := ZERO;
    for bit := 0 to times
      invariant v == DownBy(val, bit)
      invariant forall i :: 0 <= i < 64 ==> r[i] == (times - bit <= i < times && val[times - 1 - i])
    {
      if v[0] {
        r := r[times - 1 - bit := true];
      }
      v := Down(v);
    }
  }

  /** `HashCRC64Once`, for `refl` with bit 3 set (each byte is reflected) or clear. */
  method HashOnce(last: Register, data: Octet, poly: Register, reflected: bool) returns (r: Register)
    ensures r == HighByte(poly, last, if reflected then Mirrored(data) else data)
  {
    var b := BitReflect64(if reflected then 8 else 0, Low(data));
    ReflectedByte(data);
    r := EightSteps(Xor(last, High(b[..8])), poly);
  }

  lemma ReflectedByte(data: Octet)
    ensures Reflected(8, Low(data))[..8] == Mirrored(data) && Reflected(0, Low(data))[..8] == data
  {
    assert Low(data)[..8] == data;
  }

  lemma StepsUnfold(poly: Register, n: nat, x: Register)
    ensures StepsHigh(poly, n, x) == if n == 0 then x else StepsHigh(poly, n - 1, StepHigh(poly, x))
  {
  }

  method EightSteps(start: Register, poly: Register) returns (r: Register)
    ensures r == StepsHigh(poly, 8, start)
  {
    hide Xor, Up, StepsHigh;
    r := start;
    for bit := 0 to 8
      invariant StepsHigh(poly, 8 - bit, r) == StepsHigh(poly, 8, start)
    {
      StepsUnfold(poly, 8 - bit, r);
      r := Xor(Up(r), if r[63] then poly else ZERO);
    }
    StepsUnfold(poly, 0, r);
  }

  /** Bit 3 of `refl` asks for reflected bytes and bit 6 for a reflected result. */
  predicate ReflectsBytes(refl: int) {
    (refl / 8) % 2 == 1
  }

  predicate ReflectsEnd(refl: int) {
    (refl / 64) % 2 == 1
  }

  /** The bytes, each in the opposite bit order. */
  function MirroredBytes(data: seq<Octet>): (r: seq<Octet>)
    ensures |r| == |data| && forall i :: 0 <= i < |data| ==> r[i] == Mirrored(data[i])
  {
    seq(|data|, i requires 0 <= i < |data| => Mirrored(data[i]))
  }

  /** Reflecting bytes is taking the string with its bytes reflected. */
  lemma {:induction false} BytesMirrored(poly: Register, crc: Register, data: seq<Octet>)
    ensures HighCrc(poly, crc, data, true) == HighCrc(poly, crc, MirroredBytes(data), false)
    decreases |data|
  {
    hide HighByte;
    if data != [] {
      BytesMirrored(poly, HighByte(poly, crc, Mirrored(data[0])), data[1..]);
      assert MirroredBytes(data)[1..] == MirroredBytes(data[1..]);
    }
  }

  lemma FlagBits(refl: int)
    ensures ReflectsBytes(refl) <==> refl % 16 >= 8
    ensures ReflectsEnd(refl) <==> refl % 128 >= 64
  {
    HalfOfUnit(refl, 8);
    HalfOfUnit(refl, 64);
  }

  lemma HalfOfUnit(x: int, w: nat)
    requires w == 8 || w == 64
    ensures (x / w) % 2 == 1 <==> x % (2 * w) >= w
  {
    var q, r := x / (2 * w), x % (2 * w);
    if w == 8 {
      assert x == 16 * q + r;
      assert x / 8 == if r >= 8 then 2 * q + 1 else 2 * q;
    } else {
      assert x == 128 * q + r;
      assert x / 64 == if r >= 64 then 2 * q + 1 else 2 * q;
    }
  }

  /** `HashCRC64Bytes` */
  method HashBytes(data: seq<Octet>, crc: Register, poly: Register, finalXor: Register, refl: int) returns (r: Register)
    ensures var end := HighCrc(poly, crc, data, ReflectsBytes(refl));
      r == Xor(if ReflectsEnd(refl) then Mirrored(end) else end, finalXor)
    ensures var end := HighCrc(poly, crc, if refl % 16 >= 8 then MirroredBytes(data) else data, false);
      r == Xor(if refl % 128 >= 64 then Mirrored(end) else end, finalXor)
  {
    hide HighByte, Mirrored, Xor;
    var reflected := ReflectsBytes(refl);
    var remainder := crc;
    assert data[0..] == data;
    for n := 0 to |data|
      invariant HighCrc(poly, remainder, data[n..], reflected) == HighCrc(poly, crc, data, reflected)
    {
      assert data[n..][0] == data[n] && data[n..][1..] == data[n + 1..];
      remainder := HashOnce(remainder, data[n], poly, reflected);
    }
    var end := BitReflect64(if ReflectsEnd(refl) then 64 else 0, remainder);
    assert remainder[..64] == remainder;
    r := Xor(end, finalXor);
    BytesMirrored(poly, crc, data);
    FlagBits(refl);
  }

  lemma LowUnfold(poly: Register, n: nat, x: Register)
    ensures StepsLow(poly, n, x) == if n == 0 then x else StepsLow(poly, n - 1, StepLow(poly, x))
  {
  }

  lemma XorZero(x: Register)
    ensures Xor(x, ZERO) == x
  {
  }

  /** One entry of the table. */
  method TableEntry(start: Register, poly: Register) returns (crc: Register)
    ensures crc == StepsLow(poly, 8, start)
  {
    hide Xor, Down, StepsLow;
    crc := start;
    for j := 0 to 8
      invariant StepsLow(poly, 8 - j, crc) == StepsLow(poly, 8, start)
    {
      LowUnfold(poly, 8 - j, crc);
      if crc[0] {
        crc := Xor(Down(crc), poly);
      } else {
        XorZero(Down(crc));
        crc := Down(crc);
      }
    }
    LowUnfold(poly, 0, crc);
  }

  /** `init_crc64_tab` */
  method InitTable(poly: Register) returns (table: array<Register>)
    ensures fresh(table) && IsTable(poly, table[..])
  {
    hide StepsLow, Low, ByteOf;
    table := new Register[256](_ => ZERO);
    for i := 0 to 256
      invariant forall k :: 0 <= k < i ==> table[k] == StepsLow(poly, 8, Low(ByteOf(k)))
    {
      var crc := TableEntry(Low(ByteOf(i)), poly);
      table[i] := crc;
    }
  }

  /** `crc64`: the string is given without its terminating NUL. */
  method TableCrc(table: seq<Register>, ghost poly: Register, crc: Register, str: seq<Octet>) returns (r: Register)
    requires IsTable(poly, table)
    ensures r == LowCrc(poly, crc, str)
  {
    r := crc;
    assert str[0..] == str;
    for n := 0 to |str|
      invariant LowCrc(poly, r, str[n..]) == LowCrc(poly, crc, str)
    {
      assert str[n..][0] == str[n] && str[n..][1..] == str[n + 1..];
      TableStepIsEightSteps(poly, table, r, str[n]);
      r := TableStep(table, r, str[n]);
    }
  }

  /** Both computations on one string: the table's register is the other one's result before its final exclusive or. */
  method BothCrcs(poly: Register, crc: Register, str: seq<Octet>, finalXor: Register, refl: int)
    returns (byTable: Register, byBits: Register)
    requires ReflectsBytes(refl) && ReflectsEnd(refl)
    ensures byBits == Xor(byTable, finalXor)
    ensures byTable == LowCrc(poly, crc, str)
  {
    var table := InitTable(poly);
    byTable := TableCrc(table[..], poly, crc, str);
    byBits := HashBytes(str, Mirrored(crc), Mirrored(poly), finalXor, refl);
    CrcMirrored(Mirrored(poly), Mirrored(crc), str);
    MirroredTwice(poly);
    MirroredTwice(crc);
  }
}
