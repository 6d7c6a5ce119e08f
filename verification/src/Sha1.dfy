/** sha1.c: the unrolled rounds over a circular schedule of 16 words, and the
    streaming interface around them. */
module Sha1 {
  import opened Sha1Spec

  // ---- one block ------------------------------------------------------------

  /** A word of the block as a little-endian machine reads it. */
  function LittleEndian(b0: Octet, b1: Octet, b2: Octet, b3: Octet): Word {
    Word(((b3.bits as bv32) << 24) | ((b2.bits as bv32) << 16) | ((b1.bits as bv32) << 8) | (b0.bits as bv32))
  }

  function Loaded(b: seq<Octet>, j: nat): Word
    requires |b| == 64 && j < 16
  {
    LittleEndian(b[4 * j], b[4 * j + 1], b[4 * j + 2], b[4 * j + 3])
  }

  /** What blk0 makes of a word. */
  function Swapped(x: Word): Word {
    var l := x.bits;
    Word((((l << 24) | (l >> 8)) & 0xFF00FF00) | (((l << 8) | (l >> 24)) & 0x00FF00FF))
  }

  lemma SwappedIs(b: seq<Octet>, j: nat)
    requires |b| == 64 && j < 16
    ensures Swapped(Loaded(b, j)) == WordsOf(b)[j]
  {
  }

  function Slot(u: nat): (j: nat)
    ensures j < 16
  {
    u % 16
  }

  /** The word of the schedule that a slot of the block must hold before round `t`:
      the last sixteen are in place, later ones are as loaded. */
  ghost predicate Window<T(!new)>(s: seq<T>, w: nat -> T, raw: nat -> T, t: nat) {
    && |s| == 16
    && (forall u: nat :: u < t <= u + 16 ==> s[Slot(u)] == w(u))
    && (forall j: nat :: t <= j < 16 ==> s[j] == raw(j))
  }

  lemma WindowStep<T(!new)>(s: seq<T>, w: nat -> T, raw: nat -> T, t: nat, x: T)
    requires Window(s, w, raw, t) && x == w(t)
    ensures Window(s[Slot(t) := x], w, raw, t + 1)
  {
    if t < 16 { SmallSlot(t); }
    hide Slot;
    var s' := s[Slot(t) := x];
    forall u: nat | u < t + 1 <= u + 16 ensures s'[Slot(u)] == w(u) {
      if u < t { OtherSlot(u, t); }
    }
    forall j: nat | t + 1 <= j < 16 ensures s'[j] == raw(j) {
      assert s[j] == raw(j);
    }
  }

  lemma SmallSlot(t: nat)
    requires t < 16
    ensures Slot(t) == t
  {
  }

  lemma OtherSlot(u: nat, t: nat)
    requires u < t < u + 16
    ensures Slot(u) != Slot(t)
  {
  }

  /** The slots the macro blk reads hold the words the schedule asks for. */
  lemma WindowReads<T(!new)>(s: seq<T>, w: nat -> T, raw: nat -> T, t: nat)
    requires 16 <= t && Window(s, w, raw, t)
    ensures s[Slot(t + 13)] == w(t - 3) && s[Slot(t + 8)] == w(t - 8)
    ensures s[Slot(t + 2)] == w(t - 14) && s[Slot(t)] == w(t - 16)
  {
    SlotBack(t);
    hide Slot;
    assert s[Slot(t - 3)] == w(t - 3);
    assert s[Slot(t - 8)] == w(t - 8);
    assert s[Slot(t - 14)] == w(t - 14);
    assert s[Slot(t - 16)] == w(t - 16);
  }

  lemma SlotBack(t: nat)
    requires 16 <= t
    ensures Slot(t + 13) == Slot(t - 3) && Slot(t + 8) == Slot(t - 8)
    ensures Slot(t + 2) == Slot(t - 14) && Slot(t) == Slot(t - 16)
  {
  }

  ghost function Words(b: seq<Octet>): nat -> Word
    requires |b| == 64
  {
    (u: nat) => W(WordsOf(b), u)
  }

  ghost function Raw(b: seq<Octet>): nat -> Word
    requires |b| == 64
  {
    (j: nat) => if j < 16 then Loaded(b, j) else Word(0)
  }

  ghost predicate Sched(s: seq<Word>, b: seq<Octet>, t: nat) {
    |b| == 64 && Window(s, Words(b), Raw(b), t)
  }

  lemma SchedLength(s: seq<Word>, b: seq<Octet>, t: nat)
    requires Sched(s, b, t)
    ensures |s| == 16 && |b| == 64
  {
  }

  /** The value blk gives to its word. */
  function Mixed(s: seq<Word>, t: nat): Word
    requires |s| == 16
  {
    Rol1(Xor(Xor(Xor(s[Slot(t + 13)], s[Slot(t + 8)]), s[Slot(t + 2)]), s[Slot(t)]))
  }

  lemma SchedStart(s: seq<Word>, b: seq<Octet>, t: nat)
    requires Sched(s, b, t) && t < 16
    ensures |s| == 16 && |b| == 64 && Slot(t) == t
    ensures Swapped(s[t]) == W(WordsOf(b), t)
    ensures Sched(s[t := Swapped(s[t])], b, t + 1)
  {
    SmallSlot(t);
    SwappedIs(b, t);
    WindowRaw(s, Words(b), Raw(b), t);
    ScheduleStart(WordsOf(b), t);
    hide Window, Swapped, WordsOf, Loaded, W, Slot;
    WindowStep(s, Words(b), Raw(b), t, Swapped(s[t]));
  }

  lemma WindowRaw<T(!new)>(s: seq<T>, w: nat -> T, raw: nat -> T, t: nat)
    requires Window(s, w, raw, t) && t < 16
    ensures |s| == 16 && s[t] == raw(t)
  {
  }

  lemma ScheduleStart(m: seq<Word>, t: nat)
    requires |m| == 16 && t < 16
    ensures W(m, t) == m[t]
  {
  }

  lemma SchedStep(s: seq<Word>, b: seq<Octet>, t: nat)
    requires Sched(s, b, t) && 16 <= t
    ensures |s| == 16 && |b| == 64
    ensures Mixed(s, t) == W(WordsOf(b), t)
    ensures Sched(s[Slot(t) := Mixed(s, t)], b, t + 1)
  {
    ScheduleStep(WordsOf(b), t);
    WindowReads(s, Words(b), Raw(b), t);
    hide Window, WordsOf, Loaded, W, Slot, Rol1, Xor;
    WindowStep(s, Words(b), Raw(b), t, Mixed(s, t));
  }

  lemma ScheduleStep(m: seq<Word>, t: nat)
    requires |m| == 16 && 16 <= t
    ensures W(m, t) == Rol1(Xor(Xor(Xor(W(m, t - 3), W(m, t - 8)), W(m, t - 14)), W(m, t - 16)))
  {
  }

  /** z += f + blk + k + rol(v, 5), in the order of the macros. */
  function Mix(z: Word, f: Word, blk: Word, k: Word, v5: Word): Word {
    Word(z.bits + (f.bits + blk.bits + k.bits + v5.bits))
  }

  /** The forms of Ch, Parity and Maj in the macros R0 and R1, R2 and R4, and R3. */
  function F01(w: Word, x: Word, y: Word): Word { Word((w.bits & (x.bits ^ y.bits)) ^ y.bits) }
  function F24(w: Word, x: Word, y: Word): Word { Word(w.bits ^ x.bits ^ y.bits) }
  function F3(w: Word, x: Word, y: Word): Word { Word(((w.bits | x.bits) & y.bits) | (w.bits & x.bits)) }

  /** They are the functions of section 4.1.1. */
  lemma ChIs(w: Word, x: Word, y: Word)
    ensures F01(w, x, y) == Ch(w, x, y)
  {
  }

  lemma ParityIs(w: Word, x: Word, y: Word)
    ensures F24(w, x, y) == Parity(w, x, y)
  {
  }

  lemma MajIs(w: Word, x: Word, y: Word)
    ensures F3(w, x, y) == Maj(w, x, y)
  {
  }

  /** The order of the sum does not matter. */
  lemma MixIs(z: Word, f: Word, blk: Word, k: Word, v5: Word)
    ensures Mix(z, f, blk, k, v5) == Sum(v5, f, z, k, blk)
  {
    SumOrder(z.bits, f.bits, blk.bits, k.bits, v5.bits);
  }

  lemma SumOrder(z: bv32, f: bv32, blk: bv32, k: bv32, v5: bv32)
    ensures z + (f + blk + k + v5) == v5 + f + z + k + blk
  {
  }

  /** The macros R0 to R4; `z` and `w` are the registers they assign. */
  method R(block: array<Word>, ghost b: seq<Octet>, v: Word, w: Word, x: Word, y: Word, z: Word, i: nat)
    returns (z': Word, w': Word)
    requires Sched(block[..], b, i) && i < 80 && |b| == 64
    modifies block
    ensures Sched(block[..], b, i + 1)
    ensures Regs(z', v, w', x, y) == Round(Regs(v, w, x, y, z), i, W(WordsOf(b), i))
  {
    hide Sched, W, WordsOf, Rol5, Rol30, Ch, Parity, Maj, Sum, Mix, F01, F24, F3;
    var blk := Blk(block, b, i);
    ChIs(w, x, y);
    ParityIs(w, x, y);
    MajIs(w, x, y);
    MixIs(z, F(i, w, x, y), blk, K(i), Rol5(v));
    if i < 16 {
      z' := Mix(z, F01(w, x, y), blk, Word(0x5A827999), Rol5(v));
    } else if i < 20 {
      z' := Mix(z, F01(w, x, y), blk, Word(0x5A827999), Rol5(v));
    } else if i < 40 {
      z' := Mix(z, F24(w, x, y), blk, Word(0x6ED9EBA1), Rol5(v));
    } else if i < 60 {
      z' := Mix(z, F3(w, x, y), blk, Word(0x8F1BBCDC), Rol5(v));
    } else {
      z' := Mix(z, F24(w, x, y), blk, Word(0xCA62C1D6), Rol5(v));
    }
    w' := Rol30(w);
  }

  /** blk0 and blk. */
  method Blk(block: array<Word>, ghost b: seq<Octet>, i: nat) returns (l: Word)
    requires Sched(block[..], b, i) && |b| == 64
    modifies block
    ensures Sched(block[..], b, i + 1)
    ensures l == W(WordsOf(b), i)
  {
    hide W, WordsOf, Loaded, Swapped, Rol1, Sched, Slot, Xor;
    assert block.Length == 16 by { SchedLength(block[..], b, i); }
    ghost var s := block[..];
    if i < 16 {
      SchedStart(s, b, i);
      l := Swapped(block[i]);
      block[i] := l;
      assert block[..] == s[i := l];
    } else {
      SchedStep(s, b, i);
      l := Rol1(Xor(Xor(Xor(block[Slot(i + 13)], block[Slot(i + 8)]), block[Slot(i + 2)]), block[Slot(i)]));
      block[Slot(i)] := l;
      assert block[..] == s[Slot(i) := l];
    }
  }

  /** Five macros, after which every register is back under its name. */
  method FiveRounds(
      block: array<Word>, ghost b: seq<Octet>, ghost h: Regs, a0: Word, b0: Word, c0: Word, d0: Word, e0: Word, i: nat)
    returns (a: Word, b': Word, c: Word, d: Word, e: Word)
    requires Sched(block[..], b, i) && i + 5 <= 80 && |b| == 64
    requires Regs(a0, b0, c0, d0, e0) == Rounds(WordsOf(b), h, i)
    modifies block
    ensures Sched(block[..], b, i + 5)
    ensures Regs(a, b', c, d, e) == Rounds(WordsOf(b), h, i + 5)
  {
    hide Sched, W, WordsOf, Round;
    a, b', c, d, e := a0, b0, c0, d0, e0;
    e, b' := R(block, b, a, b', c, d, e, i);
    d, a := R(block, b, e, a, b', c, d, i + 1);
    c, e := R(block, b, d, e, a, b', c, i + 2);
    b', d := R(block, b, c, d, e, a, b', i + 3);
    a, c := R(block, b, b', c, d, e, a, i + 4);
    assert Regs(a, b', c, d, e) == Rounds(WordsOf(b), h, i + 5) by {
      FiveMore(WordsOf(b), h, i);
    }
  }

  lemma FiveMore(m: seq<Word>, h: Regs, i: nat)
    requires |m| == 16
    ensures Rounds(m, h, i + 5) ==
      Round(Round(Round(Round(Round(Rounds(m, h, i), i, W(m, i)), i + 1, W(m, i + 1)), i + 2, W(m, i + 2)),
            i + 3, W(m, i + 3)), i + 4, W(m, i + 4))
  {
    hide Round, W;
    assert Rounds(m, h, i + 1) == Round(Rounds(m, h, i), i, W(m, i));
    assert Rounds(m, h, i + 2) == Round(Rounds(m, h, i + 1), i + 1, W(m, i + 1));
    assert Rounds(m, h, i + 3) == Round(Rounds(m, h, i + 2), i + 2, W(m, i + 2));
    assert Rounds(m, h, i + 4) == Round(Rounds(m, h, i + 3), i + 3, W(m, i + 3));
  }

  ghost function RegsOf(s: seq<Word>): Regs
    requires |s| == 5
  {
    Regs(s[0], s[1], s[2], s[3], s[4])
  }

  /** SHA1Transform. */
  method Transform(state: array<Word>, buffer: seq<Octet>)
    requires state.Length == 5 && |buffer| == 64
    modifies state
    ensures RegsOf(state[..]) == Block(old(RegsOf(state[..])), WordsOf(buffer))
  {
    hide W, WordsOf, Loaded, Rounds, Sched, Add;
    var block := LoadBlock(buffer);
    var a, b, c, d, e := state[0], state[1], state[2], state[3], state[4];
    ghost var h := Regs(a, b, c, d, e);
    NoRounds(WordsOf(buffer), h);
    var i := 0;
    while i < 80
      invariant i <= 80 && i % 5 == 0
      invariant Sched(block[..], buffer, i)
      invariant Regs(a, b, c, d, e) == Rounds(WordsOf(buffer), h, i)
      invariant state[..] == old(state[..])
    {
      a, b, c, d, e := FiveRounds(block, buffer, h, a, b, c, d, e, i);
      i := i + 5;
    }
    AddBack(state, h, Regs(a, b, c, d, e));
  }

  /** The end of SHA1Transform. */
  method AddBack(state: array<Word>, ghost h: Regs, r: Regs)
    requires state.Length == 5 && RegsOf(state[..]) == h
    modifies state
    ensures RegsOf(state[..]) == Regs(Add(h.a, r.a), Add(h.b, r.b), Add(h.c, r.c), Add(h.d, r.d), Add(h.e, r.e))
  {
    hide Add;
    state[0] := Add(state[0], r.a);
    state[1] := Add(state[1], r.b);
    state[2] := Add(state[2], r.c);
    state[3] := Add(state[3], r.d);
    state[4] := Add(state[4], r.e);
  }

  lemma NoRounds(m: seq<Word>, h: Regs)
    requires |m| == 16
    ensures Rounds(m, h, 0) == h
  {
  }

  /** The memcpy of 64 bytes into the union of bytes and words. */
  method LoadBlock(buffer: seq<Octet>) returns (block: array<Word>)
    requires |buffer| == 64
    ensures fresh(block) && Sched(block[..], buffer, 0)
  {
    hide Loaded, W, WordsOf;
    block := new Word[16];
    var j := 0;
    while j < 16
      invariant j <= 16
      invariant forall k :: 0 <= k < j ==> block[k] == Loaded(buffer, k)
    {
      block[j] := Loaded(buffer, j);
      j := j + 1;
    }
    assert Window(block[..], Words(buffer), Raw(buffer), 0);
  }

  // ---- the stream -----------------------------------------------------------

  /** memcpy(&buffer[at], &data[from], n). */
  method Copy(buffer: array<Octet>, at: nat, data: seq<Octet>, from: nat, n: nat)
    requires at + n <= buffer.Length && from + n <= |data|
    modifies buffer
    ensures buffer[..] == old(buffer[..at]) + data[from..from + n] + old(buffer[at + n..])
  {
    var k := 0;
    while k < n
      invariant k <= n
      invariant forall j :: 0 <= j < buffer.Length ==>
        buffer[j] == if at <= j < at + k then data[from + (j - at)] else old(buffer[j])
    {
      buffer[at + k] := data[from + k];
      k := k + 1;
    }
  }

  lemma HashMore(b: seq<Octet>, c: seq<Octet>)
    requires |b| % 64 == 0 && |c| == 64
    ensures |b + c| % 64 == 0 && Hash(b + c) == Block(Hash(b), WordsOf(c))
  {
    hide Block, WordsOf;
    var bc := b + c;
    assert bc[..|bc| - 64] == b && bc[|bc| - 64..] == c;
  }

  /** The part of a message that fills whole blocks. */
  function Whole(m: seq<Octet>): (b: seq<Octet>)
    ensures |b| % 64 == 0 && b <= m
  {
    m[..|m| - |m| % 64]
  }

  function Rest(m: seq<Octet>): (r: seq<Octet>)
    ensures |r| == |m| % 64 && Whole(m) + r == m
  {
    m[|m| - |m| % 64..]
  }

  class Context {
    const state: array<Word>
    var count0: nat
    var count1: nat
    const buffer: array<Octet>

    ghost predicate Valid()
      reads this
    {
      state.Length == 5 && buffer.Length == 64
    }

    /** The context has taken in the message `m`: the hash value of its whole
        blocks, the bytes that are left, and its length in bits modulo 2^64. */
    ghost predicate Absorbed(m: seq<Octet>)
      requires Valid()
      reads this, state, buffer
    {
      && RegsOf(state[..]) == Hash(Whole(m))
      && buffer[..|m| % 64] == Rest(m)
      && Counted(|m|)
    }

    ghost predicate Counted(n: nat)
      reads this
    {
      count0 == 8 * n % TWO32 && count1 == 8 * n / TWO32 % TWO32
    }

    /** SHA1Init. */
    constructor ()
      ensures Valid() && fresh(state) && fresh(buffer) && Absorbed([])
    {
      hide Block, WordsOf;
      state := new Word[5];
      buffer := new Octet[64];
      count0, count1 := 0, 0;
      new;
      state[0], state[1], state[2], state[3], state[4] :=
        Word(0x67452301), Word(0xEFCDAB89), Word(0x98BADCFE), Word(0x10325476), Word(0xC3D2E1F0);
    }

    /** The counting of SHA1Update: 32-bit additions with a carry. */
    method Count(len: nat, ghost n: nat)
      requires len < TWO32 && Counted(n)
      modifies this`count0, this`count1
      ensures Counted(n + len)
    {
      var j := count0;
      count0 := (count0 + len * 8 % TWO32) % TWO32;
      if count0 < j {
        count1 := (count1 + 1) % TWO32;
      }
      count1 := (count1 + len / 0x2000_0000) % TWO32;
      CountCarries(n, len);
    }

    /** SHA1Update. The sums of its index arithmetic must not leave 32 bits. */
    method Update(data: seq<Octet>, ghost m: seq<Octet>)
      requires Valid() && Absorbed(m) && |data| < TWO32 - 64
      modifies this`count0, this`count1, state, buffer
      ensures Absorbed(m + data)
    {
      hide Hash, Block, WordsOf;
      var j := count0 / 8 % 64;
      BytesHeld(|m|);
      assert j == |m| % 64;
      Count(|data|, |m|);
      var i := 0;
      if j + |data| > 63 {
        i := 64 - j;
        Copy(buffer, j, data, 0, i);
        FirstBlock(m, data);
        assert buffer[..] == Rest(m) + data[..i];
        Transform(state, buffer[..]);
        while i + 63 < |data|
          invariant 64 - j <= i <= |data| && (|m| + i) % 64 == 0
          invariant RegsOf(state[..]) == Hash(m + data[..i])
          invariant Counted(|m| + |data|)
        {
          NextBlock(m, data, i);
          Transform(state, data[i..i + 64]);
          i := i + 64;
        }
        j := 0;
        LastBlock(m, data, i);
      } else {
        NoBlock(m, data);
      }
      Copy(buffer, j, data, i, |data| - i);
      assert data[i..i + (|data| - i)] == data[i..];
    }

    /** SHA1Final. */
    method Final(ghost m: seq<Octet>) returns (digest: seq<Octet>)
      requires Valid() && Absorbed(m)
      modifies this`count0, this`count1, state, buffer
      ensures digest == Sha1(m)
    {
      hide Hash, Bytes32, Octets, Gap, Pad, Padding, Rest;
      var finalcount := FinalCount(|m|);
      Update([ONE_BIT], m);
      FillZeros(m);
      Update(finalcount, m + [ONE_BIT] + Zeros(Gap(|m|)));
      PadIs(m);
      assert RegsOf(state[..]) == Hash(Pad(m));
      digest := DigestBytes(Hash(Pad(m)));
    }

    /** The zero bytes of the padding, one update each. */
    method FillZeros(ghost m: seq<Octet>)
      requires Valid() && Absorbed(m + [ONE_BIT])
      modifies this`count0, this`count1, state, buffer
      ensures Absorbed(m + [ONE_BIT] + Zeros(Gap(|m|)))
    {
      hide Hash, Gap, Rest, Whole;
      ghost var k := 0;
      assert m + [ONE_BIT] + Zeros(0) == m + [ONE_BIT];
      BytesHeld(|m| + 1);
      while count0 / 8 % 64 != 56
        invariant k <= Gap(|m|)
        invariant Absorbed(m + [ONE_BIT] + Zeros(k))
        invariant count0 / 8 % 64 == (|m| + 1 + k) % 64
        decreases Gap(|m|) - k
      {
        GapIs(|m|, k);
        Update([ZERO], m + [ONE_BIT] + Zeros(k));
        MoreZeros(m + [ONE_BIT], k);
        k := k + 1;
        BytesHeld(|m| + 1 + k);
      }
      GapIs(|m|, k);
    }

    /** The length, highest byte first, before anything is padded. */
    method FinalCount(ghost n: nat) returns (b: seq<Octet>)
      requires Counted(n)
      ensures b == LengthBytes(8 * n)
    {
      hide LowByte, Shift;
      b := [];
      var i := 0;
      while i < 8
        invariant i <= 8 && |b| == i
        invariant forall j :: 0 <= j < i ==> b[j] == CountByte(count1, count0, j)
      {
        b := b + [CountByte(count1, count0, i)];
        i := i + 1;
      }
      CountBytes(count1, count0, b);
    }

    /** The bytes of the hash value, word by word. */
    method DigestBytes(ghost h: Regs) returns (digest: seq<Octet>)
      requires Valid() && RegsOf(state[..]) == h
      ensures digest == Digest(h)
    {
      hide Octets;
      digest := [];
      var i := 0;
      while i < 5
        invariant i <= 5
        invariant digest == (if i > 0 then Octets(h.a) else []) + (if i > 1 then Octets(h.b) else []) +
          (if i > 2 then Octets(h.c) else []) + (if i > 3 then Octets(h.d) else []) + if i > 4 then Octets(h.e) else []
      {
        digest := digest + Octets(state[i]);
        i := i + 1;
      }
    }
  }

  /** One byte of the count: a shift to the right, and the lowest byte of that. */
  function CountByte(hi: nat, lo: nat, i: nat): Octet
    requires i < 8
  {
    LowByte((if i >= 4 then lo else hi) / Shift(3 - i % 4))
  }

  lemma CountBytes(hi: nat, lo: nat, b: seq<Octet>)
    requires |b| == 8 && forall j :: 0 <= j < 8 ==> b[j] == CountByte(hi, lo, j)
    ensures b == Bytes32(hi) + Bytes32(lo)
  {
    hide LowByte;
    assert b[0] == CountByte(hi, lo, 0) && b[1] == CountByte(hi, lo, 1);
    assert b[2] == CountByte(hi, lo, 2) && b[3] == CountByte(hi, lo, 3);
    assert b[4] == CountByte(hi, lo, 4) && b[5] == CountByte(hi, lo, 5);
    assert b[6] == CountByte(hi, lo, 6) && b[7] == CountByte(hi, lo, 7);
  }

  /** A shift to the right by `k` bytes divides by this. */
  function Shift(k: nat): (d: nat)
    requires k <= 3
    ensures d > 0
  {
    if k == 0 then 1 else if k == 1 then 0x100 else if k == 2 then 0x1_0000 else 0x100_0000
  }

  /** Padding stops at the gap and not before. */
  lemma GapIs(n: nat, k: nat)
    requires k <= Gap(n)
    ensures (n + 1 + k) % 64 == 56 <==> k == Gap(n)
  {
  }

  lemma MoreZeros(m: seq<Octet>, k: nat)
    ensures m + Zeros(k) + [ZERO] == m + Zeros(k + 1)
  {
  }

  lemma PadIs(m: seq<Octet>)
    ensures m + [ONE_BIT] + Zeros(Gap(|m|)) + LengthBytes(8 * |m|) == Pad(m) == Whole(Pad(m))
  {
    hide Zeros, LengthBytes;
    assert m + [ONE_BIT] + Zeros(Gap(|m|)) + LengthBytes(8 * |m|) == m + Padding(|m|);
  }

  function Concat(chunks: seq<seq<Octet>>): seq<Octet> {
    if chunks == [] then [] else Concat(chunks[..|chunks| - 1]) + chunks[|chunks| - 1]
  }

  /** The digest of a message does not depend on how it is cut into updates. */
  method HashChunks(chunks: seq<seq<Octet>>) returns (digest: seq<Octet>)
    requires forall i :: 0 <= i < |chunks| ==> |chunks[i]| < TWO32 - 64
    ensures digest == Sha1(Concat(chunks))
  {
    hide Hash, Sha1Spec.Sha1;
    var ctx := new Context();
    var i := 0;
    while i < |chunks|
      invariant i <= |chunks|
      invariant ctx.Valid() && fresh(ctx) && fresh(ctx.state) && fresh(ctx.buffer)
      invariant ctx.Absorbed(Concat(chunks[..i]))
    {
      assert chunks[..i + 1][..i] == chunks[..i];
      ctx.Update(chunks[i], Concat(chunks[..i]));
      i := i + 1;
    }
    assert chunks[..i] == chunks;
    digest := ctx.Final(Concat(chunks));
  }

  lemma {:induction false} CountCarries(n: nat, len: nat)
    requires len < TWO32
    ensures var c0 := (8 * n % TWO32 + len * 8 % TWO32) % TWO32;
      && c0 == 8 * (n + len) % TWO32
      && ((8 * n / TWO32 % TWO32 + if c0 < 8 * n % TWO32 then 1 else 0) % TWO32 + len / 0x2000_0000) % TWO32 ==
         8 * (n + len) / TWO32 % TWO32
  {
    var q, r := 8 * n / TWO32, 8 * n % TWO32;
    var ql, rl := 8 * len / TWO32, 8 * len % TWO32;
    assert ql == len / 0x2000_0000;
    var carry := if r + rl < TWO32 then 0 else 1;
    SplitIs(8 * (n + len), q + ql + carry, r + rl - carry * TWO32);
    WrappedSum(q, carry, ql);
  }

  lemma SplitIs(x: nat, q: nat, r: nat)
    requires x == q * TWO32 + r && r < TWO32
    ensures x / TWO32 == q && x % TWO32 == r
  {
  }

  lemma WrappedSum(q: nat, carry: nat, l: nat)
    ensures ((q % TWO32 + carry) % TWO32 + l) % TWO32 == (q + l + carry) % TWO32
  {
  }

  lemma BytesHeld(n: nat)
    ensures 8 * n % TWO32 / 8 % 64 == n % 64
  {
  }

  /** The buffer and the start of the data make the first block. */
  lemma FirstBlock(m: seq<Octet>, data: seq<Octet>)
    requires |m| % 64 + |data| > 63
    ensures var i := 64 - |m| % 64; var c := Rest(m) + data[..i];
      && (|m| + i) % 64 == 0 && |c| == 64 && |m + data[..i]| % 64 == 0
      && Hash(m + data[..i]) == Block(Hash(Whole(m)), WordsOf(c))
  {
    hide Hash, Block, WordsOf;
    var i := 64 - |m| % 64;
    HashMore(Whole(m), Rest(m) + data[..i]);
    assert Whole(m) + (Rest(m) + data[..i]) == m + data[..i];
  }

  lemma {:induction false} NextBlock(m: seq<Octet>, data: seq<Octet>, i: nat)
    requires (|m| + i) % 64 == 0 && i + 64 <= |data|
    ensures (|m| + i + 64) % 64 == 0
    ensures Hash(m + data[..i + 64]) == Block(Hash(m + data[..i]), WordsOf(data[i..i + 64]))
  {
    hide Hash, Block, WordsOf;
    HashMore(m + data[..i], data[i..i + 64]);
    assert m + data[..i] + data[i..i + 64] == m + data[..i + 64];
  }

  lemma LastBlock(m: seq<Octet>, data: seq<Octet>, i: nat)
    requires (|m| + i) % 64 == 0 && i <= |data| < i + 64
    ensures Whole(m + data) == m + data[..i] && Rest(m + data) == data[i..]
    ensures |m + data| % 64 == |data| - i
  {
    assert |m + data| % 64 == |data| - i;
    assert (m + data)[..|m| + i] == m + data[..i];
    assert (m + data)[|m| + i..] == data[i..];
  }

  lemma NoBlock(m: seq<Octet>, data: seq<Octet>)
    requires |m| % 64 + |data| < 64
    ensures Whole(m + data) == Whole(m) && Rest(m + data) == Rest(m) + data
    ensures |m + data| % 64 == |m| % 64 + |data|
  {
    assert |m + data| % 64 == |m| % 64 + |data|;
    assert (m + data)[|m| - |m| % 64..] == m[|m| - |m| % 64..] + data;
  }
}
