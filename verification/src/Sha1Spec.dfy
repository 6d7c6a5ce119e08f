/** SHA-1 as FIPS 180-4 defines it: sections 4.1.1, 4.2.1, 5.1.1, 5.2.1, 5.3.1 and 6.1.2. */
module Sha1Spec {
  datatype Word = Word(bits: bv32)
  datatype Octet = Octet(bits: bv8)

  /** The working variables, and the hash value between blocks. */
  datatype Regs = Regs(a: Word, b: Word, c: Word, d: Word, e: Word)

  const H0: Regs :=
    Regs(Word(0x67452301), Word(0xEFCDAB89), Word(0x98BADCFE), Word(0x10325476), Word(0xC3D2E1F0))

  function Add(x: Word, y: Word): Word { Word(x.bits + y.bits) }
  function Xor(x: Word, y: Word): Word { Word(x.bits ^ y.bits) }

  function Ch(x: Word, y: Word, z: Word): Word { Word((x.bits & y.bits) ^ (!x.bits & z.bits)) }
  function Parity(x: Word, y: Word, z: Word): Word { Word(x.bits ^ y.bits ^ z.bits) }
  function Maj(x: Word, y: Word, z: Word): Word { Word((x.bits & y.bits) ^ (x.bits & z.bits) ^ (y.bits & z.bits)) }

  function F(t: nat, x: Word, y: Word, z: Word): Word {
    if t < 20 then Ch(x, y, z) else if t < 40 then Parity(x, y, z)
    else if t < 60 then Maj(x, y, z) else Parity(x, y, z)
  }

  function K(t: nat): Word {
    if t < 20 then Word(0x5A827999) else if t < 40 then Word(0x6ED9EBA1)
    else if t < 60 then Word(0x8F1BBCDC) else Word(0xCA62C1D6)
  }

  function Rol1(x: Word): Word { Word((x.bits << 1) | (x.bits >> 31)) }
  function Rol5(x: Word): Word { Word((x.bits << 5) | (x.bits >> 27)) }
  function Rol30(x: Word): Word { Word((x.bits << 30) | (x.bits >> 2)) }

  /** The message schedule of 80 words. */
  function W(m: seq<Word>, t: nat): Word
    requires |m| == 16
  {
    if t < 16 then m[t] else Rol1(Xor(Xor(Xor(W(m, t - 3), W(m, t - 8)), W(m, t - 14)), W(m, t - 16)))
  }

  function Sum(v: Word, f: Word, e: Word, k: Word, w: Word): Word {
    Word(v.bits + f.bits + e.bits + k.bits + w.bits)
  }

  function Round(r: Regs, t: nat, wt: Word): Regs {
    Regs(Sum(Rol5(r.a), F(t, r.b, r.c, r.d), r.e, K(t), wt), r.a, Rol30(r.b), r.c, r.d)
  }

  function Rounds(m: seq<Word>, r: Regs, t: nat): Regs
    requires |m| == 16
  {
    if t == 0 then r else Round(Rounds(m, r, t - 1), t - 1, W(m, t - 1))
  }

  function Block(h: Regs, m: seq<Word>): Regs
    requires |m| == 16
  {
    var r := Rounds(m, h, 80);
    Regs(Add(h.a, r.a), Add(h.b, r.b), Add(h.c, r.c), Add(h.d, r.d), Add(h.e, r.e))
  }

  function BigEndian(b0: Octet, b1: Octet, b2: Octet, b3: Octet): Word {
    Word(((b0.bits as bv32) << 24) | ((b1.bits as bv32) << 16) | ((b2.bits as bv32) << 8) | (b3.bits as bv32))
  }

  function WordsOf(b: seq<Octet>): (m: seq<Word>)
    requires |b| == 64
    ensures |m| == 16
  {
    seq(16, i requires 0 <= i < 16 => BigEndian(b[4 * i], b[4 * i + 1], b[4 * i + 2], b[4 * i + 3]))
  }

  /** The hash value after a whole number of blocks. */
  function Hash(b: seq<Octet>): Regs
    requires |b| % 64 == 0
    decreases |b|
  {
    if b == [] then H0 else Block(Hash(b[..|b| - 64]), WordsOf(b[|b| - 64..]))
  }

  const ONE_BIT: Octet := Octet(0x80)
  const ZERO: Octet := Octet(0)

  function Zeros(n: nat): (z: seq<Octet>)
    ensures |z| == n && forall i :: 0 <= i < n ==> z[i] == ZERO
  {
    seq(n, i => ZERO)
  }

  function LowByte(n: nat): Octet {
    Octet((n % 256) as bv8)
  }

  /** A 32-bit number as four bytes, the highest first. */
  function Bytes32(n: nat): (b: seq<Octet>)
    ensures |b| == 4
  {
    [LowByte(n / 0x100_0000), LowByte(n / 0x1_0000), LowByte(n / 0x100), LowByte(n)]
  }

  const TWO32: nat := 0x1_0000_0000

  /** The length in bits, modulo 2^64. */
  function LengthBytes(bits: nat): (b: seq<Octet>)
    ensures |b| == 8
  {
    Bytes32(bits / TWO32 % TWO32) + Bytes32(bits % TWO32)
  }

  /** The number of zero bytes between the one bit and the length. */
  function Gap(len: nat): (k: nat)
    ensures k < 64 && (len + 1 + k) % 64 == 56
  {
    (119 - len % 64) % 64
  }

  /** What follows a message of `len` bytes. */
  function Padding(len: nat): (p: seq<Octet>)
    ensures |p| == Gap(len) + 9
  {
    [ONE_BIT] + Zeros(Gap(len)) + LengthBytes(8 * len)
  }

  lemma PaddingFills(len: nat)
    ensures (len + Gap(len) + 9) % 64 == 0
  {
  }

  function Pad(m: seq<Octet>): (p: seq<Octet>)
    ensures |p| % 64 == 0
  {
    PaddingFills(|m|);
    m + Padding(|m|)
  }

  function Octets(x: Word): (b: seq<Octet>)
    ensures |b| == 4
  {
    [Octet(((x.bits >> 24) & 0xFF) as bv8), Octet(((x.bits >> 16) & 0xFF) as bv8),
     Octet(((x.bits >> 8) & 0xFF) as bv8), Octet((x.bits & 0xFF) as bv8)]
  }

  function Digest(h: Regs): (b: seq<Octet>)
    ensures |b| == 20
  {
    Octets(h.a) + Octets(h.b) + Octets(h.c) + Octets(h.d) + Octets(h.e)
  }

  /** The digest of a message. */
  function Sha1(m: seq<Octet>): seq<Octet> {
    Digest(Hash(Pad(m)))
  }

  // ---- what the operations on words do, bit by bit ---------------------------

  /** Bit `i` of a word, the lowest being bit 0. */
  predicate Bit(x: Word, i: bv32)
    requires i < 32
  {
    (x.bits >> i) & 1 == 1
  }

  /** A rotation to the left takes bit `i - n` modulo 32 to bit `i`. */
  lemma RotationBits(x: Word, i: bv32)
    requires i < 32
    ensures Bit(Rol1(x), i) <==> Bit(x, (i - 1) & 31)
    ensures Bit(Rol5(x), i) <==> Bit(x, (i - 5) & 31)
    ensures Bit(Rol30(x), i) <==> Bit(x, (i - 30) & 31)
  {
  }

  /** Ch chooses between its second and third argument by the first. */
  lemma ChBits(x: Word, y: Word, z: Word, i: bv32)
    requires i < 32
    ensures Bit(Ch(x, y, z), i) <==> if Bit(x, i) then Bit(y, i) else Bit(z, i)
  {
  }

  lemma XorBits(x: Word, y: Word, i: bv32)
    requires i < 32
    ensures Bit(Xor(x, y), i) <==> Bit(x, i) != Bit(y, i)
  {
  }

  lemma ParityIsXor(x: Word, y: Word, z: Word)
    ensures Parity(x, y, z) == Xor(Xor(x, y), z)
  {
  }

  /** Parity is set where an odd number of its arguments is. */
  lemma ParityBits(x: Word, y: Word, z: Word, i: bv32)
    requires i < 32
    ensures Bit(Parity(x, y, z), i) <==> ((Bit(x, i) != Bit(y, i)) != Bit(z, i))
  {
    hide Bit, Xor, Parity;
    ParityIsXor(x, y, z);
    XorBits(x, y, i);
    XorBits(Xor(x, y), z, i);
  }

  /** Maj is set where at least two of its arguments are. */
  lemma MajBits(x: Word, y: Word, z: Word, i: bv32)
    requires i < 32
    ensures Bit(Maj(x, y, z), i) <==>
      (Bit(x, i) && Bit(y, i)) || (Bit(x, i) && Bit(z, i)) || (Bit(y, i) && Bit(z, i))
  {
  }

  /** The four bytes of a word, read back with the highest first. */
  lemma OctetsBack(x: Word)
    ensures var b := Octets(x); BigEndian(b[0], b[1], b[2], b[3]) == x
  {
  }

  /** The number that bytes stand for, the highest first. */
  function Value(b: seq<Octet>): nat {
    if b == [] then 0 else Value(b[..|b| - 1]) * 256 + b[|b| - 1].bits as nat
  }

  lemma LowByteBack(n: nat, b: Octet)
    requires n % 256 == b.bits as nat
    ensures LowByte(n) == b
  {
  }

  function Number(b: seq<Octet>): nat
    requires |b| == 4
  {
    b[0].bits as nat * 0x100_0000 + b[1].bits as nat * 0x1_0000 + b[2].bits as nat * 0x100 + b[3].bits as nat
  }

  lemma FourBytesValue(a: seq<Octet>, b: seq<Octet>)
    requires |b| == 4
    ensures Value(a + b) == Value(a) * TWO32 + Number(b)
  {
    assert (a + b)[..|a| + 3] == a + b[..3] && (a + b[..3])[..|a| + 2] == a + b[..2];
    assert (a + b[..2])[..|a| + 1] == a + b[..1] && (a + b[..1])[..|a|] == a;
    assert Value(a + b[..1]) == Value(a) * 256 + b[0].bits as nat;
    assert Value(a + b[..2]) == Value(a + b[..1]) * 256 + b[1].bits as nat;
    assert Value(a + b[..3]) == Value(a + b[..2]) * 256 + b[2].bits as nat;
  }

  lemma Digits(a: nat, b: nat, c: nat, d: nat, n: nat)
    requires a < 256 && b < 256 && c < 256 && d < 256
    requires n == a * 0x100_0000 + b * 0x1_0000 + c * 0x100 + d
    ensures n < 0x1_0000_0000
    ensures n / 0x100_0000 % 256 == a && n / 0x1_0000 % 256 == b && n / 0x100 % 256 == c && n % 256 == d
  {
    hide *;
    assert n / 0x1_0000 == a * 256 + b && n / 0x100 == a * 0x1_0000 + b * 256 + c;
  }

  lemma Bytes32Back(b: seq<Octet>)
    requires |b| == 4
    ensures Number(b) < TWO32 && Bytes32(Number(b)) == b
  {
    hide LowByte;
    var n := Number(b);
    Digits(b[0].bits as nat, b[1].bits as nat, b[2].bits as nat, b[3].bits as nat, n);
    LowByteBack(n / 0x100_0000, b[0]);
    LowByteBack(n / 0x1_0000, b[1]);
    LowByteBack(n / 0x100, b[2]);
    LowByteBack(n, b[3]);
  }

  const TWO64: nat := 0x1_0000_0000_0000_0000

  /** The last eight bytes of the padding are the ones that stand for the length in bits,
      modulo 2^64. */
  lemma LengthValue(bits: nat, b: seq<Octet>)
    requires |b| == 8 && Value(b) == bits % TWO64
    ensures LengthBytes(bits) == b
  {
    hide Bytes32, Number;
    var high, low := b[..4], b[4..];
    assert [] + high == high && high + low == b;
    FourBytesValue([], high);
    FourBytesValue(high, low);
    Bytes32Back(high);
    Bytes32Back(low);
    TwoWords(bits, Number(high), Number(low));
  }

  lemma TwoWords(n: nat, hi: nat, lo: nat)
    requires hi < 0x1_0000_0000 && lo < 0x1_0000_0000
    requires n % 0x1_0000_0000_0000_0000 == hi * 0x1_0000_0000 + lo
    ensures n / 0x1_0000_0000 % 0x1_0000_0000 == hi && n % 0x1_0000_0000 == lo
  {
    hide *;
  }

  /** The constants of the four phases are the whole parts of 2^30 times the square
      roots of 2, 3, 5 and 10 (section 4.2.1). */
  lemma ConstantRoots(t: nat)
    requires t < 80
    ensures var m := if t < 20 then 2 else if t < 40 then 3 else if t < 60 then 5 else 10;
      var k := K(t).bits as nat;
      k * k <= 0x1000_0000_0000_0000 * m < (k + 1) * (k + 1)
  {
    assert K(t).bits as nat ==
      if t < 20 then 0x5A827999 else if t < 40 then 0x6ED9EBA1 else if t < 60 then 0x8F1BBCDC else 0xCA62C1D6;
  }

  function Reversed(b: seq<Octet>): seq<Octet>
    requires |b| == 4
  {
    [b[3], b[2], b[1], b[0]]
  }

  /** The initial value counts up and down through the hexadecimal digits, each of its
      words with the lowest byte first (section 5.3.1). */
  lemma InitialBytes()
    ensures Reversed(Octets(H0.a)) == [Octet(0x01), Octet(0x23), Octet(0x45), Octet(0x67)]
    ensures Reversed(Octets(H0.b)) == [Octet(0x89), Octet(0xAB), Octet(0xCD), Octet(0xEF)]
    ensures Reversed(Octets(H0.c)) == [Octet(0xFE), Octet(0xDC), Octet(0xBA), Octet(0x98)]
    ensures Reversed(Octets(H0.d)) == [Octet(0x76), Octet(0x54), Octet(0x32), Octet(0x10)]
    ensures Reversed(Octets(H0.e)) == [Octet(0xF0), Octet(0xE1), Octet(0xD2), Octet(0xC3)]
  {
  }
}
