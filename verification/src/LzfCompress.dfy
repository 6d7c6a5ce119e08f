/**
lzf_c.c: the compressor, in its default configuration (HLOG 16, VERY_FAST on,
ULTRA_FAST and INIT_HTAB off, lzfP.h:53-89). Pointers into the two buffers are
indices, the input is never written; the hash table holds whole addresses, because it starts out with
whatever was on the stack and the code filters those values by unsigned
64-bit arithmetic. `base` is the address of the input.
*/
module LzfCompress {
  import opened Common
  import opened LzfFormat

  const HSIZE: nat := 0x1_0000
  const ADDRESSES: nat := 0x1_0000_0000_0000_0000

  type address = x: int | 0 <= x < ADDRESSES

  /** FRST, NEXT and IDX (lzf_c.c:48-53) on an unsigned 32-bit hash value. */
  function First(input: bytes, p: nat): nat
    requires p + 1 < |input|
  {
    input[p] as int * 256 + input[p + 1]
  }

  function Next(v: nat, input: bytes, p: nat): nat
    requires p + 2 < |input|
  {
    (v * 256 + input[p + 2]) % 0x1_0000_0000
  }

  function Slot(h: nat): (i: nat)
    ensures i < HSIZE
  {
    (h / 256 - h * 5) % HSIZE
  }

  /** The slot of three bytes: all that the bytes before them leave in the hash value
      is shifted out. */
  function SlotOf(a: byte, b: byte, c: byte): (i: nat)
    ensures i < HSIZE
  {
    Slot(a as int * 0x1_0000 + b as int * 256 + c)
  }

  /** The hash value has been fed the two bytes at `p`. */
  predicate Primed(hval: nat, input: bytes, p: nat) {
    p + 2 < |input| ==> hval % 0x1_0000 == input[p] as int * 256 + input[p + 1]
  }

  lemma NextSlot(hval: nat, input: bytes, p: nat)
    requires p + 2 < |input| && Primed(hval, input, p)
    ensures Slot(Next(hval, input, p)) == SlotOf(input[p], input[p + 1], input[p + 2])
    ensures Primed(Next(hval, input, p), input, p + 1)
  {
    hide Slot;
    var h := hval * 256 + input[p + 2];
    var r := input[p] as int * 0x1_0000 + input[p + 1] as int * 256 + input[p + 2];
    var q, t := hval / 0x1_0000, h / 0x1_0000_0000;
    assert h == q * 0x100_0000 + r;
    var next: nat := h % 0x1_0000_0000;
    assert next == r + (q - t * 256) * 0x100_0000;
    LowBits(next, q - t * 256, r);
    SlotLow(next, r);
    assert next == (r / 0x1_0000 + (q - t * 256) * 256) * 0x1_0000 + r % 0x1_0000;
    LowPrimed(next, r / 0x1_0000 + (q - t * 256) * 256, input[p + 1], input[p + 2]) by {
      assert r % 0x1_0000 == input[p + 1] as int * 256 + input[p + 2];
    }
  }

  lemma LowBits(x: nat, k: int, r: nat)
    requires x == r + k * 0x100_0000 && r < 0x100_0000
    ensures x % 0x100_0000 == r
  {
  }

  lemma LowPrimed(x: nat, k: int, a: byte, b: byte)
    requires x == k * 0x1_0000 + (a as int * 256 + b)
    ensures x % 0x1_0000 == a as int * 256 + b
  {
  }

  /** Only the lowest 24 bits matter. */
  lemma SlotLow(h: nat, r: nat)
    requires r < 0x100_0000 && h % 0x100_0000 == r
    ensures Slot(h) == Slot(r)
  {
    var q := h / 0x100_0000;
    assert h == q * 0x100_0000 + r;
    assert h / 256 == q * 0x1_0000 + r / 256;
    SameSlot(r / 256 - r * 5, q - q * 1280);
  }

  lemma SameSlot(x: int, k: int)
    ensures (x + k * HSIZE) % HSIZE == x % HSIZE
  {
  }

  // ---- a text that ends in one byte, repeated --------------------------------------

  function TailFrom(s: bytes, k: nat): (m: nat)
    requires k < |s| && forall i :: k <= i < |s| ==> s[i] == s[|s| - 1]
    ensures m <= k && forall i :: m <= i < |s| ==> s[i] == s[|s| - 1]
  {
    if k > 0 && s[k - 1] == s[|s| - 1] then TailFrom(s, k - 1) else k
  }

  /** Where the run of equal bytes at the end of a text begins. */
  function Tail(s: bytes): (m: nat)
    ensures m <= |s| && forall i :: m <= i < |s| ==> s[i] == s[|s| - 1]
  {
    if s == [] then 0 else TailFrom(s, |s| - 1)
  }

  lemma {:induction false} TailFromLeast(s: bytes, k: nat, m: nat)
    requires m <= k < |s| && forall i :: m <= i < |s| ==> s[i] == s[|s| - 1]
    ensures TailFrom(s, k) <= m
    decreases k
  {
    if k > m { TailFromLeast(s, k - 1, m); }
  }

  /** What the compressor needs at most: one byte in 32 more than there are before
      the run, and three for 264 bytes of the run. */
  function Budget(s: bytes): nat {
    (363 * Tail(s) + 4 * (|s| - Tail(s))) / 352 + 24
  }

  /** The size of the output if it ended here. */
  function Size(op: nat, lit: nat): int {
    if lit == 0 then op - 1 else op
  }

  /** Once the run has been entered (from `m` on), its bytes cost next to nothing; the
      last four may be literals again. */
  predicate Economy(n: nat, m: nat, ip: nat, op: nat, lit: nat) {
    ip >= m + 2 ==>
      if ip + 4 < n then 352 * Size(op, lit) <= 363 * (m + 2) + 4 * (ip - (m + 2)) + 1408
      else 352 * op <= 363 * (m + 2) + 4 * (ip - (m + 2)) + 1408 + 352 * (5 + 2 * (ip + 4 - n))
  }

  /** Before the run is entered, the bound is that of any text. */
  predicate Plain(ip: nat, op: nat, lit: nat) {
    32 * (op - lit - 1) <= 33 * (ip - lit)
  }

  lemma LiteralEconomy(n: nat, m: nat, ip: nat, op: nat, lit: nat, op': nat, lit': nat)
    requires Economy(n, m, ip, op, lit) && (ip < m + 2 || ip + 4 >= n) && op <= op' <= op + 2
    requires Plain(ip + 1, op', lit')
    ensures Economy(n, m, ip + 1, op', lit')
  {
  }

  lemma MatchEconomy(n: nat, m: nat, ip: nat, op: nat, lit: nat, ip': nat, op': nat)
    requires Economy(n, m, ip, op, lit) && Plain(ip, op, lit) && ip + 4 < n && 0 < op' <= Size(op, lit) + 4
    requires ip < ip' <= n && (ip >= m + 2 ==> ip' == ip + MAX_REF || ip' + 2 >= n)
    ensures Economy(n, m, ip', op', 0)
  {
  }

  /** So a buffer of that size does not run out. */
  lemma Affordable(s: bytes, ip: nat, op: nat, lit: nat, outLen: nat)
    requires Economy(|s|, Tail(s), ip, op, lit) && Plain(ip, op, lit) && ip <= |s| && lit <= ip
    ensures ip < Tail(s) + 2 || ip + 4 < |s| ==> Size(op, lit) + 5 <= Budget(s)
    ensures op + 3 + 2 * (|s| - ip) <= Budget(s) || (ip < |s| - 2 && ip + 4 < |s|)
  {
  }

  /** What holds between two steps: the closed part of the output encodes the
      input up to the open literal run, and the run's bytes are already in place
      behind the one byte kept free for its length. */
  ghost predicate Progress(text: bytes, out: bytes, outLen: nat, ip: nat, op: nat, lit: nat, items: seq<Item>) {
    && |out| == outLen + 1
    && lit < MAX_LIT && lit <= ip <= |text| && lit + 1 <= op <= outLen + 1
    && (lit > 0 ==> op <= outLen)
    && AllValid(items)
    && Encode(items) == out[..op - lit - 1]
    && Meaning([], items) == Some(text[..ip - lit])
    && out[op - lit..op] == text[ip - lit..ip]
    && 32 * (op - lit - 1) <= 33 * (ip - lit)  // incompressible input costs one byte in 33
  }

  /** Closing a run that is not empty adds one literal item. */
  lemma RunClosed(text: bytes, out: bytes, closed: bytes, outLen: nat, ip: nat, op: nat, lit: nat, items: seq<Item>)
    requires 0 < lit <= MAX_LIT && lit <= ip <= |text| && lit + 1 <= op <= |out|
    requires AllValid(items) && Encode(items) == out[..op - lit - 1]
    requires Meaning([], items) == Some(text[..ip - lit])
    requires out[op - lit..op] == text[ip - lit..ip]
    requires closed == out[op - lit - 1 := lit - 1]
    ensures var run := Literal(text[ip - lit..ip]);
            && AllValid(items + [run])
            && Encode(items + [run]) == closed[..op]
            && Meaning([], items + [run]) == Some(text[..ip])
  {
    hide Encode, Meaning, CopyBack;
    var run := Literal(text[ip - lit..ip]);
    EncodeAppend(items, run);
    MeaningAppend([], items, run);
    assert run.Encode() == [lit - 1] + out[op - lit..op];
    assert text[..ip - lit] + text[ip - lit..ip] == text[..ip];
    assert closed[..op] == out[..op - lit - 1] + [lit - 1] + out[op - lit..op];
  }

  /** Appending a reference to an earlier copy of the next `len` bytes. */
  lemma RefAppended(text: bytes, items: seq<Item>, ip: nat, ref: nat, len: nat)
    requires 0 <= ref < ip && ip - ref <= MAX_OFF && 3 <= len <= MAX_REF && ip + len <= |text|
    requires AllValid(items) && Meaning([], items) == Some(text[..ip])
    requires Matches(text, ip, ref, len)
    ensures var item := Ref(ip - ref, len);
            && AllValid(items + [item])
            && Encode(items + [item]) == Encode(items) + item.Encode()
            && Meaning([], items + [item]) == Some(text[..ip + len])
  {
    var item := Ref(ip - ref, len);
    EncodeAppend(items, item);
    MeaningAppend([], items, item);
    assert item.Valid();
    forall k | ip <= k < ip + len ensures text[k] == text[k - (ip - ref)] {
      assert text[ip..ip + len][k - ip] == text[ref..ref + len][k - ip];
    }
    CopyBackIsText(text, ip, ip - ref, len);
  }

  /** The next `len` bytes at `ip` also occur at `ref`. */
  ghost predicate Matches(text: bytes, ip: nat, ref: nat, len: nat)
    requires ref < ip && ip + len <= |text|
  {
    text[ref..ref + len] == text[ip..ip + len]
  }

  /** The match-length loop of lzf_c.c:179-209: sixteen comparisons without a
      bound check when more than sixteen bytes may still match, then one at a time. */
  method MatchLength(input: bytes, ip: nat, ref: nat, maxlen: nat) returns (len: nat)
    requires ref < ip && ip + 4 < |input|
    requires maxlen == if |input| - ip - 2 > MAX_REF then MAX_REF else |input| - ip - 2
    requires Matches(input, ip, ref, 3)
    ensures 3 <= len <= MAX_REF && ip + len <= |input|
    ensures Matches(input, ip, ref, len) && (len < maxlen ==> input[ref + len] != input[ip + len])
  {
    len := 2;
    if maxlen > 16 {
      var differ;
      len, differ := FourMore(input, ip, ref, len);
      if differ { return; }
      len, differ := FourMore(input, ip, ref, len);
      if differ { return; }
      len, differ := FourMore(input, ip, ref, len);
      if differ { return; }
      len, differ := FourMore(input, ip, ref, len);
      if differ { return; }
    }
    len := len + 1;
    while len < maxlen && input[ref + len] == input[ip + len]
      invariant 3 <= len && (len <= maxlen || len == 19) && ip + len <= |input|
      invariant Matches(input, ip, ref, len)
    {
      MatchesMore(input, ip, ref, len);
      len := len + 1;
    }
  }

  lemma MatchesMore(text: bytes, ip: nat, ref: nat, len: nat)
    requires ref < ip && ip + len < |text|
    requires Matches(text, ip, ref, len) && text[ref + len] == text[ip + len]
    ensures Matches(text, ip, ref, len + 1)
  {
    assert text[ref..ref + len + 1] == text[ref..ref + len] + [text[ref + len]];
    assert text[ip..ip + len + 1] == text[ip..ip + len] + [text[ip + len]];
  }

  /** One group of four unchecked comparisons (lzf_c.c:183-186): on entry the
      bytes up to and including `first` match, on exit those before `len` do. */
  method FourMore(input: bytes, ip: nat, ref: nat, first: nat) returns (len: nat, differ: bool)
    requires ref < ip && 2 <= first && ip + first + 4 < |input|
    requires Matches(input, ip, ref, first + 1)
    ensures first < len <= first + 4
    ensures Matches(input, ip, ref, len) && (differ ==> input[ref + len] != input[ip + len])
    ensures !differ ==> len == first + 4 && Matches(input, ip, ref, len + 1)
  {
    len := first + 1;
    if input[ref + len] != input[ip + len] { return len, true; }
    MatchesMore(input, ip, ref, len);
    len := len + 1;
    if input[ref + len] != input[ip + len] { return len, true; }
    MatchesMore(input, ip, ref, len);
    len := len + 1;
    if input[ref + len] != input[ip + len] { return len, true; }
    MatchesMore(input, ip, ref, len);
    len := len + 1;
    if input[ref + len] != input[ip + len] { return len, true; }
    MatchesMore(input, ip, ref, len);
    return len, false;
  }

  /** `*op++ = *ip++` with the closing of a full run (lzf_c.c:266-272, 281-287). */
  method CopyByte(input: bytes, out: array<byte>, outLen: nat, ip: nat, op: nat, lit: nat, ghost items: seq<Item>)
    returns (ip': nat, op': nat, lit': nat, ghost items': seq<Item>)
    requires Progress(input, out[..], outLen, ip, op, lit, items)
    requires ip < |input| && op < outLen
    modifies out
    ensures Progress(input, out[..], outLen, ip', op', lit', items')
    ensures ip' == ip + 1
    ensures if lit + 1 == MAX_LIT then lit' == 0 && op' == op + 2 else lit' == lit + 1 && op' == op + 1
  {
    hide Encode, Meaning, AllValid;
    ghost var before := out[..];
    out[op] := input[ip];
    lit', ip', op' := lit + 1, ip + 1, op + 1;
    items' := items;
    ghost var copied := out[..];
    assert copied[..op - lit - 1] == before[..op - lit - 1];
    assert copied[op' - lit'..op'] == before[op - lit..op] + [input[ip]];
    assert input[ip' - lit'..ip'] == input[ip - lit..ip] + [input[ip]];
    if lit' == MAX_LIT {
      out[op' - lit' - 1] := lit' - 1;
      RunClosed(input, copied, out[..], outLen, ip', op', lit', items);
      items' := items + [Literal(input[ip' - lit'..ip'])];
      lit', op' := 0, op' + 1;
    }
  }

  /** The start of a match (lzf_c.c:173-174): closes the run, or gives its length
      byte back when it is empty. */
  method CloseRun(input: bytes, out: array<byte>, outLen: nat, ip: nat, op: nat, lit: nat, ghost items: seq<Item>)
    returns (op': nat, ghost items': seq<Item>)
    requires Progress(input, out[..], outLen, ip, op, lit, items)
    modifies out
    ensures AllValid(items') && op' <= outLen
    ensures Encode(items') == out[..op']
    ensures Meaning([], items') == Some(input[..ip])
    ensures op' == (if lit == 0 then op - 1 else op) && 32 * op' <= 33 * ip - lit + 32
    ensures lit == 0 ==> 32 * op' <= 33 * ip
  {
    ghost var before := out[..];
    out[op - lit - 1] := if lit == 0 then 255 else lit - 1;
    if lit == 0 {
      assert out[..op - 1] == before[..op - 1];
      return op - 1, items;
    }
    RunClosed(input, before, out[..], outLen, ip, op, lit, items);
    return op, items + [Literal(input[ip - lit..ip])];
  }

  /** Writes the reference (lzf_c.c:211-224): two bytes, or three for a long match. */
  method WriteRef(out: array<byte>, op: nat, dist: nat, octets: nat) returns (op': nat)
    requires Ref(dist, octets).Valid() && op + 3 < out.Length
    modifies out
    ensures op' == op + (if octets < 9 then 2 else 3)
    ensures out[..op'] == old(out[..op]) + Ref(dist, octets).Encode()
  {
    ghost var before := out[..op];
    var off, len := dist - 1, octets - 2;
    op' := op;
    if len < 7 {
      out[op'] := off / 256 + len * 32;
      op' := op' + 1;
    } else {
      out[op'] := off / 256 + 7 * 32;
      op' := op' + 1;
      out[op'] := len - 7;
      op' := op' + 1;
    }
    out[op'] := off % 256;
    op' := op' + 1;
    assert out[..op] == before;
  }

  lemma MatchesThree(text: bytes, ip: nat, ref: nat)
    requires ref < ip && ip + 3 <= |text|
    ensures Matches(text, ip, ref, 3) <==>
      text[ref] == text[ip] && text[ref + 1] == text[ip + 1] && text[ref + 2] == text[ip + 2]
  {
    assert text[ref..ref + 3] == [text[ref], text[ref + 1], text[ref + 2]];
    assert text[ip..ip + 3] == [text[ip], text[ip + 1], text[ip + 2]];
  }

  /** The test for a usable match candidate (lzf_c.c:155-165): `ref` is whatever
      address the table held. */
  method Candidate(input: bytes, base: address, ip: nat, ref: address) returns (found: bool, at: nat)
    requires MAX_OFF <= base && base + |input| < ADDRESSES && ip + 2 < |input|
    ensures found ==> 0 < at < ip && ip - at <= MAX_OFF && ip + 4 < |input| && Matches(input, ip, at, 3)
    ensures ref == base + ip - 1 && 2 <= ip && ip + 4 < |input| && Matches(input, ip, ip - 1, 3) ==>
              found && at == ip - 1
  {
    var off := (base + ip - ref - 1) % ADDRESSES;
    found, at := false, 0;
    if off < MAX_OFF && ip + 4 < |input| && ref > base {
      at := ref - base;
      assert off == ip - at - 1;
      if at < ip { MatchesThree(input, ip, at); }
      found := input[at] == input[ip] && input[at + 1] == input[ip + 1] && input[at + 2] == input[ip + 2];
    }
  }

  /** One match: lzf_c.c:168-225, up to the start of the next run. */
  method EmitMatch(input: bytes, out: array<byte>, outLen: nat, ip: nat, op: nat, lit: nat, ref: nat,
                   ghost items: seq<Item>)
    returns (ok: bool, ip': nat, op': nat, ghost items': seq<Item>)
    requires Progress(input, out[..], outLen, ip, op, lit, items)
    requires 0 < ref < ip && ip - ref <= MAX_OFF && ip + 4 < |input| && Matches(input, ip, ref, 3)
    modifies out
    ensures ok ==> ip + 3 <= ip' && Progress(input, out[..], outLen, ip', op', 0, items')
    ensures ok ==> op' <= Size(op, lit) + 4 && ip' <= ip + MAX_REF
    ensures ok && ip' < ip + MAX_REF && ip' + 2 < |input| ==> input[ref + (ip' - ip)] != input[ip']
    ensures !ok ==> Size(op, lit) + 4 >= outLen
  {
    hide Encode, Meaning, Item.Encode, Matches;
    var maxlen := |input| - ip - 2;
    maxlen := if maxlen > MAX_REF then MAX_REF else maxlen;
    op', items' := CloseRun(input, out, outLen, ip, op, lit, items);
    ip' := ip;
    if op' + 3 + 1 >= outLen {
      return false, ip', op', items';
    }
    var len := MatchLength(input, ip, ref, maxlen);
    ghost var closed := out[..op'];
    op' := WriteRef(out, op', ip - ref, len);
    RefWritten(input, out[..], outLen, ip, ref, len, closed, op', items');
    items' := items' + [Ref(ip - ref, len)];
    ip' := ip + len;
    op' := op' + 1;
    ok := true;
  }

  /** A reference written behind a closed output starts a new, empty run. */
  lemma RefWritten(text: bytes, out: bytes, outLen: nat, ip: nat, ref: nat, len: nat, closed: bytes, op: nat,
                   items: seq<Item>)
    requires ref < ip && ip - ref <= MAX_OFF && 3 <= len <= MAX_REF && ip + len <= |text|
    requires |out| == outLen + 1 && op == |closed| + (if len < 9 then 2 else 3) && op <= outLen
    requires AllValid(items) && Encode(items) == closed && Meaning([], items) == Some(text[..ip])
    requires out[..op] == closed + Ref(ip - ref, len).Encode()
    requires Matches(text, ip, ref, len) && 32 * |closed| <= 33 * ip + 32
    ensures Progress(text, out, outLen, ip + len, op + 1, 0, items + [Ref(ip - ref, len)])
  {
    RefAppended(text, items, ip, ref, len);
    assert out[op + 1..op + 1] == text[ip + len..ip + len];
  }

  /** After a match, the last two positions it covers are entered in the table
      (VERY_FAST, lzf_c.c:232-247). */
  method EnterLastTwo(input: bytes, base: address, end: nat, htab: array<address>) returns (hval: nat)
    requires 2 <= end && end + 2 < |input| && base + |input| < ADDRESSES && htab.Length == HSIZE
    modifies htab
    ensures Primed(hval, input, end)
    ensures htab[SlotOf(input[end - 1], input[end], input[end + 1])] == base + end - 1
  {
    hide Next, Slot, SlotOf;
    var ip := end - 2;
    hval := First(input, ip);
    FirstPrimed(input, ip);
    NextSlot(hval, input, ip);
    hval := Next(hval, input, ip);
    htab[Slot(hval)] := base + ip;
    ip := ip + 1;
    NextSlot(hval, input, ip);
    hval := Next(hval, input, ip);
    htab[Slot(hval)] := base + ip;
  }

  lemma FirstPrimed(input: bytes, p: nat)
    requires p + 1 < |input|
    ensures Primed(First(input, p), input, p)
  {
  }

  /** From the second position of the run on, the table knows the position before. */
  ghost predicate Entered(input: bytes, base: address, ip: nat, table: seq<address>) {
    Tail(input) + 1 <= ip && ip + 2 < |input| ==>
      && |table| == HSIZE
      && table[SlotOf(input[|input| - 1], input[|input| - 1], input[|input| - 1])] == base + ip - 1
  }

  lemma EnteredNow(input: bytes, base: address, ip: nat, table: seq<address>)
    requires |table| == HSIZE && 1 <= ip
    requires ip + 2 < |input| ==> table[SlotOf(input[ip - 1], input[ip], input[ip + 1])] == base + ip - 1
    ensures Entered(input, base, ip, table)
  {
    hide SlotOf;
  }

  /** In the run, the position before is found, and it matches as far as there is room. */
  lemma RunFound(input: bytes, base: address, ip: nat, table: seq<address>)
    requires Entered(input, base, ip, table) && Tail(input) + 2 <= ip && ip + 2 < |input|
    ensures |table| == HSIZE && table[SlotOf(input[ip], input[ip + 1], input[ip + 2])] == base + ip - 1
    ensures Matches(input, ip, ip - 1, 3) && forall k: nat :: ip - 1 <= k < |input| ==> input[k] == input[ip]
  {
    hide SlotOf;
    MatchesThree(input, ip, ip - 1);
  }

  lemma ProgressPlain(text: bytes, out: bytes, outLen: nat, ip: nat, op: nat, lit: nat, items: seq<Item>)
    requires Progress(text, out, outLen, ip, op, lit, items)
    ensures Plain(ip, op, lit) && lit <= ip <= |text| && lit + 1 <= op <= outLen + 1 && |out| == outLen + 1
  {
  }

  /**
  lzf_compress. The table `htab` may hold anything. The output buffer has the
  `outLen + 1` bytes that rdb.c:112-113 allocates, and no write leaves it. A
  result of 0 means that the input was not compressed, which cannot happen when
  the buffer has room for the input and one byte in 32 more. A run of equal bytes at
  the end takes three bytes in 264, whatever the table holds.
  */
  method Compress(input: bytes, base: address, out: array<byte>, outLen: nat, htab: array<address>)
    returns (n: nat, ghost items: seq<Item>)
    requires |input| != 1 && MAX_OFF <= base && base + |input| < ADDRESSES
    requires out.Length == outLen + 1 && htab.Length == HSIZE
    modifies out, htab
    ensures n <= outLen
    ensures |input| > 0 && outLen >= |input| + |input| / 32 + 4 ==> n > 0
    ensures |input| > 0 && outLen >= Budget(input) ==> n > 0
    ensures n <= Budget(input)
    ensures n > 0 ==> AllValid(items) && Encode(items) == out[..n] && Meaning([], items) == Some(input)
  {
    items := [];
    if |input| == 0 || outLen == 0 {
      return 0, items;
    }
    var ip: nat, op: nat, lit: nat := 0, 1, 0;
    assert Progress(input, out[..], outLen, ip, op, lit, items) by {
      assert out[..0] == [] && input[..0] == [];
    }
    hide Encode, Meaning, AllValid, Next, Slot, Matches, First, Progress, Tail, Economy, Entered, Primed, Budget;
    var hval := First(input, ip);
    ghost var m := Tail(input);
    FirstPrimed(input, ip);
    Begun(input, base, htab[..]);
    while ip < |input| - 2
      invariant Progress(input, out[..], outLen, ip, op, lit, items)
      invariant Economy(|input|, m, ip, op, lit) && Primed(hval, input, ip) && Entered(input, base, ip, htab[..])
      decreases |input| - ip
    {
      var ok;
      ok, ip, op, lit, hval, items := Turn(input, base, out, outLen, htab, ip, op, lit, hval, items);
      if !ok {
        return 0, items;
      }
    }
    ProgressPlain(input, out[..], outLen, ip, op, lit, items);
    Affordable(input, ip, op, lit, outLen);
    n, items := Finish(input, out, outLen, ip, op, lit, items);
  }

  lemma Begun(input: bytes, base: address, table: seq<address>)
    ensures Economy(|input|, Tail(input), 0, 1, 0) && Entered(input, base, 0, table)
  {
  }

  /** One turn of the loop, lzf_c.c:147-274. */
  method Turn(input: bytes, base: address, out: array<byte>, outLen: nat, htab: array<address>,
              ip0: nat, op0: nat, lit0: nat, hval0: nat, ghost items0: seq<Item>)
    returns (ok: bool, ip: nat, op: nat, lit: nat, hval: nat, ghost items: seq<Item>)
    requires MAX_OFF <= base && base + |input| < ADDRESSES && out.Length == outLen + 1 && htab.Length == HSIZE
    requires ip0 + 2 < |input| && Progress(input, out[..], outLen, ip0, op0, lit0, items0)
    requires Economy(|input|, Tail(input), ip0, op0, lit0)
    requires Primed(hval0, input, ip0) && Entered(input, base, ip0, htab[..])
    modifies out, htab
    ensures ok ==> ip0 < ip && Progress(input, out[..], outLen, ip, op, lit, items)
    ensures ok ==> Economy(|input|, Tail(input), ip, op, lit)
    ensures ok ==> Primed(hval, input, ip) && Entered(input, base, ip, htab[..])
    ensures !ok ==> outLen < Budget(input) && 32 * (outLen - 4) <= 33 * ip0 + 32
  {
    hide Encode, Meaning, AllValid, Next, Slot, SlotOf, Matches, First, Progress, Tail, Economy, Entered,
      Budget, Primed;
    NextSlot(hval0, input, ip0);
    ProgressPlain(input, out[..], outLen, ip0, op0, lit0, items0);
    Affordable(input, ip0, op0, lit0, outLen);
    hval := Next(hval0, input, ip0);
    var ref := htab[Slot(hval)];
    if Tail(input) + 2 <= ip0 { RunFound(input, base, ip0, htab[..]); }
    htab[Slot(hval)] := base + ip0;
    var found, at := Candidate(input, base, ip0, ref);
    if found {
      ok, ip, op, items := EmitMatch(input, out, outLen, ip0, op0, lit0, at, items0);
      lit := 0;
      if !ok {
        return;
      }
      ProgressPlain(input, out[..], outLen, ip, op, lit, items);
      MatchEconomy(|input|, Tail(input), ip0, op0, lit0, ip, op);
      if ip >= |input| - 2 {
        NearEnd(input, base, ip, htab[..], hval);
        return;
      }
      hval := EnterLastTwo(input, base, ip, htab);
      EnteredNow(input, base, ip, htab[..]);
    } else {
      if op0 >= outLen {
        return false, ip0, op0, lit0, hval, items0;
      }
      ip, op, lit, items := CopyByte(input, out, outLen, ip0, op0, lit0, items0);
      ok := true;
      ProgressPlain(input, out[..], outLen, ip, op, lit, items);
      LiteralEconomy(|input|, Tail(input), ip0, op0, lit0, op, lit);
      EnteredNow(input, base, ip, htab[..]);
    }
  }

  lemma NearEnd(input: bytes, base: address, ip: nat, table: seq<address>, hval: nat)
    requires ip + 2 >= |input|
    ensures Entered(input, base, ip, table) && Primed(hval, input, ip)
  {
  }

  /** The last bytes, too close to the end to be matched (lzf_c.c:276-293). */
  method Finish(input: bytes, out: array<byte>, outLen: nat, ip: nat, op: nat, lit: nat, ghost items: seq<Item>)
    returns (n: nat, ghost items': seq<Item>)
    requires Progress(input, out[..], outLen, ip, op, lit, items) && ip + 2 >= |input|
    modifies out
    ensures n <= outLen && n <= op + 2 * (|input| - ip)
    ensures |input| > 0 && op + 3 <= outLen ==> n > 0
    ensures |input| > 0 && outLen >= |input| + |input| / 32 + 4 ==> n > 0
    ensures n > 0 ==> AllValid(items') && Encode(items') == out[..n] && Meaning([], items') == Some(input)
  {
    if op + 3 > outLen {
      return 0, items;
    }
    var ip': nat, op': nat, lit': nat := ip, op, lit;
    items' := items;
    while ip' < |input|
      invariant Progress(input, out[..], outLen, ip', op', lit', items')
      invariant ip <= ip' && op' <= op + 2 * (ip' - ip)
      invariant op' + (|input| - ip') < outLen || (op' + (|input| - ip') == outLen && lit' + (|input| - ip') <= 1)
    {
      ip', op', lit', items' := CopyByte(input, out, outLen, ip', op', lit', items');
    }
    n, items' := CloseRun(input, out, outLen, ip', op', lit', items');
    assert input[..ip'] == input;
  }
}
