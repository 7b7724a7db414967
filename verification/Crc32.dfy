/** CRC-32: the bytewise loop of `crc32.c`, the bit-serial shift register, and long division
    of polynomials over GF(2), which all give the same remainder.

    A machine word is the sequence of its bits, lowest first: `r & 1` is `r[0]`, a right
    shift drops bits in front and appends zeros. */
module Crc32 {

  type Bits = seq<bool>
  type Word = w: Bits | |w| == 32 witness Zeros(32)
  type Byte = b: Bits | |b| == 8 witness Zeros(8)

  function Zeros(n: nat): (z: Bits)
    ensures |z| == n && forall i :: 0 <= i < n ==> !z[i]
  {
    seq(n, i => false)
  }

  function Ones(n: nat): (o: Bits)
    ensures |o| == n && forall i :: 0 <= i < n ==> o[i]
  {
    seq(n, i => true)
  }

  function Xor(a: Bits, b: Bits): (c: Bits)
    requires |a| == |b|
    ensures |c| == |a| && forall i :: 0 <= i < |a| ==> c[i] == (a[i] != b[i])
  {
    seq(|a|, i requires 0 <= i < |a| => a[i] != b[i])
  }

  function Not(a: Bits): (c: Bits)
    ensures |c| == |a| && forall i :: 0 <= i < |a| ==> c[i] == !a[i]
  {
    seq(|a|, i requires 0 <= i < |a| => !a[i])
  }

  /** The low `k` bits of a number. */
  function BitsOf(n: nat, k: nat): (b: Bits)
    ensures |b| == k
  {
    if k == 0 then [] else [n % 2 == 1] + BitsOf(n / 2, k - 1)
  }

  /** The generator, without its leading term, reflected. */
  const POLY: Word := BitsOf(0xEDB8_8320, 32)

  lemma NextBit(n: nat, k: nat)
    requires k > 0
    ensures BitsOf(n, k)[0] == (n % 2 == 1) && BitsOf(n, k)[1..] == BitsOf(n / 2, k - 1)
  {}

  lemma NextNibble(j: nat, n: nat)
    requires j < 8 && POLY[4 * j..] == BitsOf(n, 32 - 4 * j)
    ensures POLY[4 * j] == (n % 2 == 1) && POLY[4 * j + 1] == (n / 2 % 2 == 1)
    ensures POLY[4 * j + 2] == (n / 4 % 2 == 1) && POLY[4 * j + 3] == (n / 8 % 2 == 1)
    ensures POLY[4 * j + 4..] == BitsOf(n / 16, 28 - 4 * j)
  {
    hide BitsOf;
    var k := 32 - 4 * j;
    assert n / 2 / 2 == n / 4 && n / 4 / 2 == n / 8 && n / 8 / 2 == n / 16;
    NextBit(n, k);
    NextBit(n / 2, k - 1);
    NextBit(n / 4, k - 2);
    NextBit(n / 8, k - 3);
    assert POLY[4 * j..][1..] == POLY[4 * j + 1..] && POLY[4 * j + 1..][1..] == POLY[4 * j + 2..];
    assert POLY[4 * j + 2..][1..] == POLY[4 * j + 3..] && POLY[4 * j + 3..][1..] == POLY[4 * j + 4..];
  }

  /** The generator is that of IEEE 802.3, by the exponents of its terms below the leading one. */
  lemma Generator(e: nat)
    requires e < 32
    ensures POLY[31 - e] <==> e in {26, 23, 22, 16, 12, 11, 10, 8, 7, 5, 4, 2, 1, 0}
  {
    hide BitsOf;
    assert POLY[0..] == BitsOf(0xEDB8_8320, 32);
    NextNibble(0, 0xEDB8_8320);
    NextNibble(1, 0xEDB_8832);
    NextNibble(2, 0xED_B883);
    NextNibble(3, 0xE_DB88);
    NextNibble(4, 0xEDB8);
    NextNibble(5, 0xEDB);
    NextNibble(6, 0xED);
    NextNibble(7, 0xE);
  }

  // ----- The program

  /** `_crc32_poly`. */
  method Crc32Poly(i: Byte) returns (r: Word)
    ensures r == Steps(i + Zeros(24), 8)
  {
    r := i + Zeros(24);
    for j := 0 to 8
      invariant Steps(r, 8 - j) == Steps(i + Zeros(24), 8)
    {
      var l := r[0];
      r := r[1..] + [false];
      if l {
        r := Xor(r, POLY);
      }
    }
  }

  /** `crc32`: the complement of the remainder of the message, followed by 32 zeros, with its
      first 32 bits complemented. */
  method Crc(p: seq<Byte>) returns (r: Word)
    ensures r == Not(Divide(XorPrefix(Message(p) + Zeros(32), Ones(32))))
  {
    r := Ones(32);
    for i := 0 to |p|
      invariant RunBits(r, Message(p[i..])) == RunBits(Ones(32), Message(p))
    {
      var t := Crc32Poly(Xor(r[..8], p[i]));
      ByteAtOnce(r, p[i]);
      RunConcat(r, p[i], Message(p[i + 1..]));
      assert p[i..][1..] == p[i + 1..];
      r := Xor(t, r[8..] + Zeros(8));
    }
    DivisionIsRegister(Ones(32), Message(p));
    r := Not(r);
  }

  /** The bits of a message in the order in which they are sent. */
  function Message(p: seq<Byte>): Bits {
    if p == [] then [] else p[0] + Message(p[1..])
  }

  // ----- The shift register

  /** One shift of the register. */
  function Shift(r: Word): Word {
    if r[0] then Xor(r[1..] + [false], POLY) else r[1..] + [false]
  }

  function Steps(r: Word, n: nat): Word
    decreases n
  {
    if n == 0 then r else Steps(Shift(r), n - 1)
  }

  /** Bit-serial division: each message bit is mixed into the bit about to leave. */
  function RunBits(r: Word, m: Bits): Word
    decreases |m|
  {
    if m == [] then r else RunBits(Shift(r[0 := r[0] != m[0]]), m[1..])
  }

  lemma {:induction false} RunConcat(r: Word, a: Bits, b: Bits)
    ensures RunBits(r, a + b) == RunBits(RunBits(r, a), b)
    decreases |a|
  {
    if a == [] {
      assert a + b == b;
    } else {
      assert (a + b)[1..] == a[1..] + b;
      RunConcat(Shift(r[0 := r[0] != a[0]]), a[1..], b);
    }
  }

  lemma ShiftXor(x: Word, y: Word)
    ensures Shift(Xor(x, y)) == Xor(Shift(x), Shift(y))
  {}

  /** The register is linear. */
  lemma {:induction false} StepsXor(x: Word, y: Word, n: nat)
    ensures Steps(Xor(x, y), n) == Xor(Steps(x, n), Steps(y, n))
    decreases n
  {
    if n > 0 {
      ShiftXor(x, y);
      StepsXor(Shift(x), Shift(y), n - 1);
    }
  }

  /** Zeros in front are shifted out without effect. */
  lemma {:induction false} ZerosShiftOut(n: nat, t: Bits)
    requires n + |t| == 32
    ensures Steps(Zeros(n) + t, n) == t + Zeros(n)
    decreases n
  {
    if n > 0 {
      assert Shift(Zeros(n) + t) == Zeros(n - 1) + (t + [false]);
      ZerosShiftOut(n - 1, t + [false]);
      assert (t + [false]) + Zeros(n - 1) == t + Zeros(n);
    } else {
      assert Zeros(0) + t == t == t + Zeros(0);
    }
  }

  /** Up to 32 message bits may be mixed in all at once, before the shifts. */
  lemma {:induction false} MixAtOnce(r: Word, m: Bits)
    requires |m| <= 32
    ensures RunBits(r, m) == Steps(Xor(r, m + Zeros(32 - |m|)), |m|)
    decreases |m|
  {
    hide BitsOf, Shift;
    if m == [] {
      assert Xor(r, m + Zeros(32)) == r;
    } else {
      MixStep(r, m);
      MixAtOnce(Shift(r[0 := r[0] != m[0]]), m[1..]);
    }
  }

  lemma MixStep(r: Word, m: Bits)
    requires 0 < |m| <= 32
    ensures Shift(Xor(r, m + Zeros(32 - |m|))) == Xor(Shift(r[0 := r[0] != m[0]]), m[1..] + Zeros(32 - |m[1..]|))
  {}

  /** The program's step for a byte feeds its eight bits. */
  lemma ByteAtOnce(r: Word, b: Byte)
    ensures Xor(Steps(Xor(r[..8], b) + Zeros(24), 8), r[8..] + Zeros(8)) == RunBits(r, b)
  {
    MixAtOnce(r, b);
    assert Xor(r, b + Zeros(24)) == Xor(Xor(r[..8], b) + Zeros(24), Zeros(8) + r[8..]);
    StepsXor(Xor(r[..8], b) + Zeros(24), Zeros(8) + r[8..], 8);
    ZerosShiftOut(8, r[8..]);
  }

  // ----- Long division

  function XorPrefix(s: Bits, g: Bits): (t: Bits)
    requires |g| <= |s|
    ensures |t| == |s|
  {
    Xor(s[..|g|], g) + s[|g|..]
  }

  /** One step of schoolbook division of a polynomial, highest power first: if its leading
      coefficient is set, subtract the generator; either way the leading term is gone. */
  function Reduce(s: Bits): (t: Bits)
    requires |s| > 32
    ensures |t| == |s| - 1
  {
    if s[0] then XorPrefix(s[1..], POLY) else s[1..]
  }

  /** The remainder. */
  function Divide(s: Bits): (t: Bits)
    requires |s| >= 32
    ensures |t| == 32
    decreases |s|
  {
    if |s| == 32 then s else Divide(Reduce(s))
  }

  /** The quotient, highest power first. */
  function Quotient(s: Bits): Bits
    requires |s| >= 32
    decreases |s|
  {
    if |s| == 32 then [] else [s[0]] + Quotient(Reduce(s))
  }

  /** `q` times the generator, plus `t`, by Horner's rule. */
  function TimesPlus(q: Bits, t: Word): (s: Bits)
    ensures |s| == |q| + 32
    decreases |q|
  {
    if q == [] then t
    else
      var s := TimesPlus(q[1..], t);
      [q[0]] + (if q[0] then XorPrefix(s, POLY) else s)
  }

  /** Quotient times generator plus remainder is the dividend. */
  lemma {:induction false} DivisionAlgorithm(s: Bits)
    requires |s| >= 32
    ensures TimesPlus(Quotient(s), Divide(s)) == s
    decreases |s|
  {
    if |s| > 32 {
      DivisionAlgorithm(Reduce(s));
      assert ([s[0]] + Quotient(Reduce(s)))[1..] == Quotient(Reduce(s));
      assert s[0] ==> XorPrefix(XorPrefix(s[1..], POLY), POLY) == s[1..];
    }
  }

  /** And only one remainder does that, whatever the quotient. */
  lemma {:induction false} RemainderUnique(q: Bits, t: Word)
    ensures Divide(TimesPlus(q, t)) == t && Quotient(TimesPlus(q, t)) == q
    decreases |q|
  {
    if q != [] {
      var s := TimesPlus(q[1..], t);
      RemainderUnique(q[1..], t);
      assert XorPrefix(XorPrefix(s, POLY), POLY) == s;
      assert Reduce(TimesPlus(q, t)) == s;
    }
  }

  /** One step of the division is one shift of the register. */
  lemma ReduceIsShift(r: Word, m: Bits)
    requires m != []
    ensures Reduce(XorPrefix(m + Zeros(32), r)) == XorPrefix(m[1..] + Zeros(32), Shift(r[0 := r[0] != m[0]]))
  {
    hide BitsOf;
    var s, x := XorPrefix(m + Zeros(32), r), r[0 := r[0] != m[0]];
    var next := x[1..] + [false];
    assert s[0] == x[0];
    assert s[1..] == XorPrefix(m[1..] + Zeros(32), next);
    XorPrefixTwice(m[1..] + Zeros(32), next, POLY);
  }

  lemma XorPrefixTwice(s: Bits, g: Word, h: Word)
    requires |s| >= 32
    ensures XorPrefix(XorPrefix(s, g), h) == XorPrefix(s, Xor(g, h))
  {
  }

  /** The shift register computes the remainder of the message, its start value added to the
      first 32 bits. */
  lemma {:induction false} DivisionIsRegister(r: Word, m: Bits)
    ensures Divide(XorPrefix(m + Zeros(32), r)) == RunBits(r, m)
    decreases |m|
  {
    hide BitsOf, Reduce, Shift;
    if m == [] {
      assert XorPrefix(m + Zeros(32), r) == r;
    } else {
      ReduceIsShift(r, m);
      DivisionIsRegister(Shift(r[0 := r[0] != m[0]]), m[1..]);
    }
  }

  // ----- What the checksum detects

  function Checksum(m: Bits): Word { Not(RunBits(Ones(32), m)) }

  lemma {:induction false} RunBitsXor(x: Word, y: Word, a: Bits, b: Bits)
    requires |a| == |b|
    ensures RunBits(Xor(x, y), Xor(a, b)) == Xor(RunBits(x, a), RunBits(y, b))
    decreases |a|
  {
    if a != [] {
      var x1, y1 := x[0 := x[0] != a[0]], y[0 := y[0] != b[0]];
      assert Xor(x, y)[0 := Xor(x, y)[0] != Xor(a, b)[0]] == Xor(x1, y1);
      ShiftXor(x1, y1);
      assert Xor(a, b)[1..] == Xor(a[1..], b[1..]);
      RunBitsXor(Shift(x1), Shift(y1), a[1..], b[1..]);
    }
  }

  /** The checksum is affine. */
  lemma ChecksumAffine(a: Bits, b: Bits, c: Bits)
    requires |a| == |b| == |c|
    ensures Checksum(Xor(Xor(a, b), c)) == Xor(Xor(Checksum(a), Checksum(b)), Checksum(c))
  {
    var o := Ones(32);
    assert Xor(Xor(o, o), o) == o;
    RunBitsXor(o, o, a, b);
    RunBitsXor(Xor(o, o), o, Xor(a, b), c);
  }

  lemma ShiftInjective(x: Word, y: Word)
    requires Shift(x) == Shift(y)
    ensures x == y
  {
    hide BitsOf;
    Generator(0);
    assert Shift(x)[31] == x[0] && Shift(y)[31] == y[0];
    forall i | 0 < i < 32 ensures x[i] == y[i] {
      assert Shift(x)[i - 1] == (x[i] != (x[0] && POLY[i - 1]));
      assert Shift(y)[i - 1] == (y[i] != (y[0] && POLY[i - 1]));
    }
  }

  lemma {:induction false} StepsInjective(x: Word, y: Word, n: nat)
    requires Steps(x, n) == Steps(y, n)
    ensures x == y
    decreases n
  {
    if n > 0 {
      StepsInjective(Shift(x), Shift(y), n - 1);
      ShiftInjective(x, y);
    }
  }

  lemma {:induction false} RunBitsInjective(x: Word, y: Word, m: Bits)
    requires RunBits(x, m) == RunBits(y, m)
    ensures x == y
    decreases |m|
  {
    if m != [] {
      var x1, y1 := x[0 := x[0] != m[0]], y[0 := y[0] != m[0]];
      RunBitsInjective(Shift(x1), Shift(y1), m[1..]);
      ShiftInjective(x1, y1);
      assert x == x1[0 := x1[0] != m[0]] && y == y1[0 := y1[0] != m[0]];
    }
  }

  /** Two messages that differ only within 32 consecutive bits have different checksums. */
  lemma BurstDetected(before: Bits, v: Bits, w: Bits, after: Bits)
    requires |v| == |w| <= 32 && v != w
    ensures Checksum(before + v + after) != Checksum(before + w + after)
  {
    if Checksum(before + v + after) == Checksum(before + w + after) {
      var o := Ones(32);
      var r := RunBits(o, before);
      assert RunBits(o, before + v + after) == RunBits(o, before + w + after) by {
        NotInjective(RunBits(o, before + v + after), RunBits(o, before + w + after));
      }
      RunConcat(o, before + v, after);
      RunConcat(o, before + w, after);
      RunConcat(o, before, v);
      RunConcat(o, before, w);
      RunBitsInjective(RunBits(r, v), RunBits(r, w), after);
      MixAtOnce(r, v);
      MixAtOnce(r, w);
      var z := Zeros(32 - |v|);
      StepsInjective(Xor(r, v + z), Xor(r, w + z), |v|);
      forall i | 0 <= i < |v| ensures v[i] == w[i] {
        assert Xor(r, v + z)[i] == (r[i] != v[i]) && Xor(r, w + z)[i] == (r[i] != w[i]);
      }
    }
  }

  lemma NotInjective(x: Word, y: Word)
    requires Not(x) == Not(y)
    ensures x == y
  {}
}
