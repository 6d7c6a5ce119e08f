/** rdb.c: writing strings to a file and reading them back. */
module Rdb {
  import opened Common
  import opened Decimal
  import LzfBounds
  import LzfFormat
  import LzfCompress
  import LzfDecompress
  import opened RdbString

  lemma {:induction false} CIntSum(a: int, b: int)
    ensures CInt(CInt(a) + b) == CInt(a + b) && CInt(CInt(a) + CInt(b)) == CInt(a + b)
  {
    var p := CIntTurns(a);
    var q := CIntTurns(b);
    hide CInt;
    CIntSame(a + b, p);
    CIntSame(a + b, p + q);
  }

  lemma CIntTurns(n: int) returns (k: int)
    ensures CInt(n) == n + k * 0x1_0000_0000
  {
    k := if n % 0x1_0000_0000 <= INT_MAX then -(n / 0x1_0000_0000) else -(n / 0x1_0000_0000) - 1;
  }

  lemma CIntSame(n: int, k: int)
    ensures CInt(n + k * 0x1_0000_0000) == CInt(n)
  {
    var q, r := n / 0x1_0000_0000, n % 0x1_0000_0000;
    assert n + k * 0x1_0000_0000 == (q + k) * 0x1_0000_0000 + r;
    assert (n + k * 0x1_0000_0000) % 0x1_0000_0000 == r;
  }

  // ---- saving -------------------------------------------------------------

  /** The FILE, or NULL for a dry run. */
  class Stream {
    var content: bytes
    const dry: bool
    const space: nat

    constructor (dry: bool, space: nat)
      ensures content == [] && this.dry == dry && this.space == space
    {
      content := [];
      this.dry, this.space := dry, space;
    }

    /** What the file holds once `b` has been written. */
    ghost function Plus(before: bytes, b: bytes): bytes {
      if dry then before else before + b
    }

    /** rdbWriteRaw. */
    method WriteRaw(b: bytes) returns (n: int, ghost done: bool)
      requires b != []
      modifies this
      ensures done ==> content == Plus(old(content), b) && n == CInt(|b|)
      ensures done <==> dry || |old(content)| + |b| <= space
      ensures !done ==> n == -1
    {
      done := true;
      if !dry {
        if |content| + |b| > space {
          done := false;
          return -1, false;
        }
        content := content + b;
      }
      n := CInt(|b|);
    }

    /** rdbSaveLen. */
    method SaveLen(len: nat) returns (n: int, ghost done: bool)
      requires len <= LENERR
      modifies this
      ensures done ==> content == Plus(old(content), LenBytes(len)) && n == |LenBytes(len)|
      ensures done <==> dry || |old(content)| + |LenBytes(len)| <= space
      ensures !done ==> n == -1
    {
      hide CInt;
      if len < 64 {
        n, done := WriteRaw([len]);
      } else if len < 0x4000 {
        n, done := WriteRaw([len / 256 + 64, len % 256]);
      } else {
        n, done := WriteRaw([128]);
        if n == -1 { return; }
        assert [128] + BigEndian(len) == LenBytes(len);
        n, done := WriteRaw(BigEndian(len));
        if n == -1 { return; }
        n := 5;
      }
    }
  }

  /** rdbEncodeInteger; an empty result for 0. */
  method EncodeInteger(value: int) returns (enc: bytes)
    ensures enc == if IsInt32(value) then IntBytes(value) else []
  {
    if -128 <= value <= 127 {
      enc := [192, value % 256];
    } else if -0x8000 <= value <= 0x7fff {
      enc := [193, value % 256, value / 256 % 256];
    } else if -0x8000_0000 <= value <= 0x7fff_ffff {
      enc := [194, value % 256, value / 256 % 256, value / 0x1_0000 % 256, value / 0x100_0000 % 256];
    } else {
      enc := [];
    }
  }

  /** rdbTryIntegerEncoding: succeeds exactly on the text, as it is printed, of a
      number that 32 bits can hold. */
  method TryIntegerEncoding(s: bytes) returns (enc: bytes, ghost number: Option<int>)
    ensures forall v :: IsInt32(v) && Print(v) == s ==> enc == IntBytes(v)
    ensures (forall v :: IsInt32(v) ==> Print(v) != s) ==> enc == []
    ensures number.Some? ==> IsInt32(number.value) && Print(number.value) == s && enc == IntBytes(number.value)
    ensures number == None ==> enc == [] && forall v :: IsInt32(v) ==> Print(v) != s
  {
    hide Strtoll, Print, IntBytes, CString;
    forall v | IsInt32(v) && Print(v) == s ensures Strtoll(CString(s)) == (v, []) {
      StrtollPrint(v);
    }
    var (value, rest) := Strtoll(CString(s));
    if rest != [] {
      return [], None;
    }
    var buf := Ll2String(value);
    if buf != s {
      return [], None;
    }
    enc := EncodeInteger(value);
    number := if IsInt32(value) then Some(value) else None;
    forall v | IsInt32(v) && Print(v) == s ensures v == value { PrintInjective(v, value); }
  }

  /** rdbSaveLzfStringObject: 0 if the string is not stored, else what the dry or
      real writing comes to. */
  method SaveLzf(f: Stream, s: bytes, base: LzfCompress.address, htab: array<LzfCompress.address>)
    returns (n: int, ghost done: bool, ghost form: Form)
    requires 1 < |s| < LENERR && LzfFormat.MAX_OFF <= base && base + |s| < LzfCompress.ADDRESSES
    requires htab.Length == LzfCompress.HSIZE
    modifies f, htab
    ensures !done ==> n == -1 && !f.dry && |old(f.content)| + 11 + |s| > f.space
    ensures done && |s| > 4 && LzfCompress.Budget(s) + 4 <= |s| ==> form.Lzf?
    ensures done && form.Verbatim? ==> n == 0 && f.content == old(f.content)
    ensures done && !form.Verbatim? ==>
      form.Lzf? && Fits(form, s) && f.content == f.Plus(old(f.content), Stored(form, s)) && n == CInt(|Stored(form, s)|)
  {
    hide LenBytes, LzfFormat.Encode, LzfFormat.Meaning, LzfFormat.AllValid, CInt, LzfCompress.Budget;
    done, form := true, Verbatim;
    if |s| <= 4 {
      return 0, done, form;
    }
    var outlen := |s| - 4;
    var out := new byte[outlen + 1];
    var comprlen: nat;
    ghost var items;
    comprlen, items := LzfCompress.Compress(s, base, out, outlen, htab);
    if comprlen == 0 {
      return 0, done, form;
    }
    form := Lzf(items);
    var c := out[..comprlen];
    n, done := SaveLzfParts(f, c, |s|);
    assert Stored(form, s) == [195] + LenBytes(|c|) + LenBytes(|s|) + c;
  }

  /** The four writes of rdbSaveLzfStringObject. */
  method SaveLzfParts(f: Stream, c: bytes, len: nat) returns (nwritten: int, ghost done: bool)
    requires 0 < |c| < len < LENERR
    modifies f
    ensures done ==> f.content == f.Plus(old(f.content), [195] + LenBytes(|c|) + LenBytes(len) + c)
    ensures done ==> nwritten == CInt(|[195] + LenBytes(|c|) + LenBytes(len) + c|)
    ensures !done ==> nwritten == -1 && !f.dry && |old(f.content)| + 11 + |c| > f.space
  {
    hide LenBytes, CInt;
    SmallCInt();
    var n;
    n, done := f.WriteRaw([195]);
    if n == -1 { return -1, done; }
    nwritten := n;
    n, done := f.SaveLen(|c|);
    if n == -1 { return -1, done; }
    nwritten := CInt(nwritten + n);
    n, done := f.SaveLen(len);
    if n == -1 { return -1, done; }
    nwritten := CInt(nwritten + n);
    n, done := f.WriteRaw(c);
    CIntFails(|c|);
    if n == -1 { return -1, done; }
    CIntSum(1 + |LenBytes(|c|)| + |LenBytes(len)|, |c|);
    nwritten := CInt(nwritten + n);
    assert f.Plus(f.Plus(f.Plus(f.Plus(old(f.content), [195]), LenBytes(|c|)), LenBytes(len)), c) ==
           f.Plus(old(f.content), [195] + LenBytes(|c|) + LenBytes(len) + c);
  }

  lemma SmallCInt()
    ensures forall n :: 0 <= n <= 100 ==> CInt(n) == n
  {
  }

  /** The only size below 2^32 that reads as the failure of a write. */
  lemma CIntFails(n: nat)
    ensures n <= LENERR ==> (CInt(n) == -1 <==> n == LENERR)
  {
  }

  /**
  rdbSaveRawString. The bytes that reach the file are those of one form of the
  string, unless the count of a compressed one is not positive as a C int: then
  the string is stored a second time, as it is. The count returned is the number
  of bytes written, as a C int.
  */
  method SaveRawString(
      f: Stream, s: bytes, compression: bool, base: LzfCompress.address, htab: array<LzfCompress.address>)
    returns (n: int, ghost done: bool, ghost form: Form, ghost twice: bool)
    requires |s| < LENERR && LzfFormat.MAX_OFF <= base && base + |s| < LzfCompress.ADDRESSES
    requires htab.Length == LzfCompress.HSIZE
    modifies f, htab
    ensures !done ==> n == -1 && !f.dry && |old(f.content)| + 16 + 2 * |s| > f.space
    ensures done ==> Fits(form, s) && twice == StoredTwice(form, s)
    ensures done && compression && |s| > 20 && LzfCompress.Budget(s) + 4 <= |s| ==> form.Lzf?
    ensures done ==> f.content == f.Plus(old(f.content), Written(form, s, twice))
    ensures done ==> n == CInt(|Stored(if twice then Verbatim else form, s)|)
    ensures done ==> (form.Integer? <==> |s| <= 11 && exists v :: IsInt32(v) && Print(v) == s)
    ensures done && form.Lzf? ==> compression && |s| > 20
  {
    hide CInt, Stored, Written, IntBytes, Print, LzfCompress.Budget;
    if |s| <= 11 {
      ghost var number;
      var enc;
      enc, number := TryIntegerEncoding(s);
      if |enc| > 0 {
        form, twice := Integer(number.value), false;
        IntegerStored(number.value, s);
        n, done := f.WriteRaw(enc);
        return;
      }
    }
    n, done, form, twice := SaveLong(f, s, compression, base, htab);
  }

  /** The form that was chosen for a string, and after it a second copy. */
  ghost function Written(form: Form, s: bytes, twice: bool): bytes
    requires Fits(form, s) && |s| < LENERR
  {
    Stored(form, s) + if twice then Stored(Verbatim, s) else []
  }

  /** The test at rdb.c:161 takes a compressed string for one that was not stored. */
  ghost predicate StoredTwice(form: Form, s: bytes)
    requires Fits(form, s) && |s| < LENERR
  {
    form.Lzf? && CInt(|Stored(form, s)|) <= 0 && CInt(|Stored(form, s)|) != -1
  }

  lemma IntegerStored(v: int, s: bytes)
    requires IsInt32(v) && Print(v) == s && |s| < LENERR
    ensures Written(Integer(v), s, false) == IntBytes(v) == Stored(Integer(v), s) && |IntBytes(v)| > 0
  {
    hide Print;
    assert IntBytes(v) + [] == IntBytes(v);
  }

  lemma WrittenOnce(form: Form, s: bytes)
    requires Fits(form, s) && |s| < LENERR
    ensures Written(form, s, false) == Stored(form, s)
  {
    hide Stored, Fits;
    assert Stored(form, s) + [] == Stored(form, s);
  }

  /** rdbSaveRawString after the attempt with an integer. */
  method SaveLong(f: Stream, s: bytes, compression: bool, base: LzfCompress.address, htab: array<LzfCompress.address>)
    returns (n: int, ghost done: bool, ghost form: Form, ghost twice: bool)
    requires |s| < LENERR && LzfFormat.MAX_OFF <= base && base + |s| < LzfCompress.ADDRESSES
    requires htab.Length == LzfCompress.HSIZE
    modifies f, htab
    ensures !done ==> n == -1 && !f.dry && |old(f.content)| + 16 + 2 * |s| > f.space
    ensures done ==> Fits(form, s) && twice == StoredTwice(form, s) && !form.Integer?
    ensures done && compression && |s| > 20 && LzfCompress.Budget(s) + 4 <= |s| ==> form.Lzf?
    ensures done ==> f.content == f.Plus(old(f.content), Written(form, s, twice))
    ensures done ==> n == CInt(|Stored(if twice then Verbatim else form, s)|)
    ensures done && form.Lzf? ==> compression && |s| > 20
  {
    hide CInt, Stored, LzfFormat.Encode, LzfFormat.Meaning, LzfFormat.AllValid, LzfCompress.Budget;
    form, twice := Verbatim, false;
    if compression && |s| > 20 {
      n, done, form := SaveLzf(f, s, base, htab);
      if n == -1 || n > 0 {
        if done { WrittenOnce(form, s); }
        return;
      }
      twice := form.Lzf?;
      if twice { LzfSize(form.items, s); }
    }
    WrittenOnce(Verbatim, s);
    n, done := SaveVerbatim(f, s);
    if done && twice {
      ghost var c, v := Stored(form, s), Stored(Verbatim, s);
      assert f.Plus(f.Plus(old(f.content), c), v) == f.Plus(old(f.content), c + v);
    }
  }

  lemma LzfSize(items: seq<LzfFormat.Item>, s: bytes)
    requires Fits(Lzf(items), s) && |s| < LENERR
    ensures |Stored(Lzf(items), s)| <= |LzfFormat.Encode(items)| + 11 <= |s| + 7
  {
    hide LzfFormat.Encode, LzfFormat.Meaning, LzfFormat.AllValid, LenBytes;
  }

  /** The end of rdbSaveRawString. */
  method SaveVerbatim(f: Stream, s: bytes) returns (nwritten: int, ghost done: bool)
    requires |s| < LENERR
    modifies f
    ensures done ==> f.content == f.Plus(old(f.content), Stored(Verbatim, s)) && nwritten == CInt(|Stored(Verbatim, s)|)
    ensures done <==> f.dry || |old(f.content)| + |Stored(Verbatim, s)| <= f.space
    ensures !done ==> nwritten == -1 && |old(f.content)| + 5 + |s| > f.space
  {
    hide CInt, LenBytes;
    SmallCInt();
    var n;
    n, done := f.SaveLen(|s|);
    if n == -1 { return -1, done; }
    nwritten := n;
    assert LenBytes(|s|) + s == Stored(Verbatim, s);
    if |s| > 0 {
      n, done := f.WriteRaw(s);
      CIntFails(|s|);
      if n == -1 { return -1, done; }
      nwritten := CInt(nwritten + |s|);
      assert f.Plus(f.Plus(old(f.content), LenBytes(|s|)), s) == f.Plus(old(f.content), LenBytes(|s|) + s);
    }
  }

  // ---- what is written is read, and counted -------------------------------------

  /** The second copy is written when the compressed one takes from 2^31 to 2^32
      bytes, but for the size that reads as the failure of a write. */
  lemma StoredTwiceWhen(form: Form, s: bytes)
    requires Fits(form, s) && |s| < LENERR
    ensures StoredTwice(form, s) <==>
      form.Lzf? && INT_MAX < |Stored(form, s)| <= 0x1_0000_0000 && |Stored(form, s)| != LENERR
  {
    hide LzfFormat.Encode, LzfFormat.Meaning, LzfFormat.AllValid, IntBytes, LenBytes;
  }

  /** A string stored twice is loaded once: its second copy is left for whoever
      reads on. So exactly the bytes written are consumed if and only if it was
      stored once. */
  lemma {:induction false} TwiceLeaves(form: Form, s: bytes, rest: bytes)
    requires Fits(form, s) && |s| < LENERR
    ensures var twice := StoredTwice(form, s);
      var written := Written(form, s, twice);
      && LoadString(written + rest) == Ok((s, (if twice then Stored(Verbatim, s) else []) + rest))
      && (LoadString(written + rest) == Ok((s, rest)) <==>
            !(form.Lzf? && INT_MAX < |Stored(form, s)| <= 0x1_0000_0000 && |Stored(form, s)| != LENERR))
  {
    hide LoadString, Stored, Fits, StoredTwice;
    StoredTwiceWhen(form, s);
    VerbatimLong(s);
    var twice := StoredTwice(form, s);
    var more := if twice then Stored(Verbatim, s) else [];
    RoundTrip(form, s, more + rest);
    assert Stored(form, s) + more + rest == Stored(form, s) + (more + rest);
    assert twice ==> |more + rest| > |rest|;
    assert !twice ==> more + rest == rest;
  }

  lemma VerbatimLong(s: bytes)
    requires |s| < LENERR
    ensures Fits(Verbatim, s) && |Stored(Verbatim, s)| > 0
  {
  }

  /** Seven bytes short of 2^31, every form takes fewer than 2^31 bytes. */
  lemma BelowTwoGigabytes(form: Form, s: bytes)
    requires Fits(form, s) && |s| <= INT_MAX - 7
    ensures 0 < |Stored(form, s)| <= INT_MAX && !StoredTwice(form, s)
  {
    hide LzfFormat.Encode, LzfFormat.Meaning, LzfFormat.AllValid, IntBytes;
  }

  /** The count that rdbSaveRawString returns is the number of bytes it has written
      if and only if the form it chose takes no more bytes than an int can count. */
  lemma CountRight(form: Form, s: bytes)
    requires Fits(form, s) && |s| < LENERR
    ensures var twice := StoredTwice(form, s);
      CInt(|Stored(if twice then Verbatim else form, s)|) == |Written(form, s, twice)| <==> |Stored(form, s)| <= INT_MAX
  {
    hide Stored, Fits, StoredTwice;
    StoredTwiceWhen(form, s);
    VerbatimLong(s);
    FormLong(form, s);
  }

  lemma FormLong(form: Form, s: bytes)
    requires Fits(form, s) && |s| < LENERR
    ensures |Stored(form, s)| > 0
  {
    hide LzfFormat.Encode, LzfFormat.Meaning, LzfFormat.AllValid, IntBytes, LenBytes;
  }

  /** A string that is not compressed takes at most five bytes more than it has. */
  lemma UncompressedSize(form: Form, s: bytes)
    requires Fits(form, s) && |s| < LENERR && !form.Lzf? && (form.Integer? ==> |s| <= 11)
    ensures |Stored(form, s)| <= INT_MAX <==> |s| <= INT_MAX - 5
  {
    hide LenBytes, IntBytes;
  }

  /** A string in which no three bytes come back within 8192 is never compressed. */
  lemma NeverCompressed(form: Form, s: bytes)
    requires Fits(form, s) && LzfBounds.NoRepeat(s, |s|)
    ensures !form.Lzf?
  {
    hide LzfFormat.Encode, LzfFormat.Meaning, LzfBounds.NoRepeat, LzfFormat.AllValid;
    if form.Lzf? { LzfBounds.Incompressible(form.items, s); }
  }

  /**
  A string saved to an empty file and loaded from it. It always comes back. Its
  reported size is that of the file if and only if the form in which it was saved
  takes no more bytes than an int can count, and what is left in the file is the
  second copy. Without compression, and for a string in which no three bytes come
  back within the reach of the compressor, nothing is left, and the size is right if
  and only if the string is at least five bytes shorter than 2^31 - 1.
  */
  method SaveAndLoad(
      s: bytes, compression: bool, space: nat, base: LzfCompress.address, htab: array<LzfCompress.address>)
    returns (n: int, r: Result<bytes, LoadError>, left: bytes, size: nat, ghost done: bool, ghost form: Form)
    requires |s| < LENERR && LzfFormat.MAX_OFF <= base && base + |s| < LzfCompress.ADDRESSES
    requires htab.Length == LzfCompress.HSIZE
    modifies htab
    ensures !done ==> n == -1 && 16 + 2 * |s| > space
    ensures done ==> Fits(form, s) && r == Ok(s)
    ensures done ==> left == (if StoredTwice(form, s) then Stored(Verbatim, s) else [])
    ensures done ==> (n == size <==> |Stored(form, s)| <= INT_MAX)
    ensures done && |s| <= INT_MAX - 7 ==> left == [] && n == size
    ensures done && (!compression || LzfBounds.NoRepeat(s, |s|)) ==>
              left == [] && (n == size <==> |s| <= INT_MAX - 5)
    ensures done && compression && |s| > 20 && LzfCompress.Budget(s) + 4 <= |s| ==> form.Lzf?
  {
    hide LoadString, Stored, Fits, StoredTwice, Written, CInt, LzfBounds.NoRepeat, LzfCompress.Budget;
    var f := new Stream(false, space);
    ghost var twice;
    n, done, form, twice := SaveRawString(f, s, compression, base, htab);
    var src := new Source(f.content);
    r := src.LoadStringObject();
    left := src.input[src.pos..];
    size := |f.content|;
    if done {
      var written := Written(form, s, twice);
      assert [] + written == written && written + [] == written;
      assert Stored(Verbatim, s) + [] == Stored(Verbatim, s) by { VerbatimLong(s); }
      TwiceLeaves(form, s, []);
      StoredTwiceWhen(form, s);
      CountRight(form, s);
      VerbatimLong(s);
      if |s| <= INT_MAX - 7 { BelowTwoGigabytes(form, s); }
      if LzfBounds.NoRepeat(s, |s|) { NeverCompressed(form, s); }
      if !form.Lzf? { UncompressedSize(form, s); }
    }
  }

  // ---- strings for which it fails --------------------------------------------------

  /** Four bytes short of 2^31 - 1 the count of an uncompressed string is negative. */
  lemma CountWraps(s: bytes)
    requires |s| == INT_MAX - 4
    ensures Fits(Verbatim, s) && CInt(|Stored(Verbatim, s)|) == -0x8000_0000
  {
    hide LenBytes;
  }

  /** `m` bytes in which nothing repeats, and `k` NULs. */
  function TwiceText(m: nat, k: nat): (s: bytes)
    ensures |s| == m + k
  {
    LzfBounds.Irregular(m) + Nuls(k)
  }

  /** The compressor stores it, for any table, and every compressed form of it is long. */
  lemma {:induction false} TwiceTextForms(m: nat, k: nat)
    requires m == 2_090_000_000 && k == 100_000_000
    ensures var s := TwiceText(m, k);
      && |s| < LENERR && LzfCompress.Budget(s) + 4 <= |s|
      && forall form: Form :: Fits(form, s) && form.Lzf? ==> StoredTwice(form, s)
  {
    var s := TwiceText(m, k);
    assert s[..m] == LzfBounds.Irregular(m);
    LzfBounds.IrregularFresh(s, m);
    assert forall i :: m <= i < |s| ==> s[i] == 0;
    LzfCompress.TailFromLeast(s, |s| - 1, m);
    hide LzfBounds.NoRepeat, LzfFormat.Encode, LzfFormat.Meaning, LzfFormat.AllValid, TwiceText, StoredTwice, Stored;
    assert LzfCompress.Tail(s) <= m;
    forall form: Form | Fits(form, s) && form.Lzf? ensures StoredTwice(form, s) {
      LzfBounds.LiteralsOnly([], form.items, s, m);
      LzfLong(form.items, s);
      StoredTwiceWhen(form, s);
    }
  }

  lemma LzfLong(items: seq<LzfFormat.Item>, s: bytes)
    requires Fits(Lzf(items), s) && |s| < LENERR
    ensures |LzfFormat.Encode(items)| < |Stored(Lzf(items), s)| <= |s| + 7
  {
    hide LzfFormat.Encode, LzfFormat.Meaning, LzfFormat.AllValid, LenBytes;
  }

  /** Saved with compression on, that string is in the file twice: a second copy is
      left when it has been loaded, and the count is not the size of the file. */
  method StoredTwiceCase(base: LzfCompress.address, htab: array<LzfCompress.address>)
    returns (s: bytes, n: int, r: Result<bytes, LoadError>, left: bytes, size: nat)
    requires LzfFormat.MAX_OFF <= base && base + LENERR < LzfCompress.ADDRESSES && htab.Length == LzfCompress.HSIZE
    modifies htab
    ensures s == TwiceText(2_090_000_000, 100_000_000) && |s| < LENERR
    ensures r == Ok(s) && left == Stored(Verbatim, s) && left != [] && n != size
  {
    hide TwiceText, Stored, StoredTwice, Fits, LzfCompress.Budget;
    var m: nat, k: nat := 2_090_000_000, 100_000_000;
    TwiceTextForms(m, k);
    s := TwiceText(m, k);
    ghost var done, form;
    n, r, left, size, done, form := SaveAndLoad(s, true, 16 + 2 * |s|, base, htab);
    StoredTwiceWhen(form, s);
    VerbatimLong(s);
  }

  /** rdbSaveLongLongAsStringObject: it is loaded as the text of the number. */
  method SaveLongLong(f: Stream, value: int) returns (nwritten: int, ghost done: bool, ghost form: Form)
    requires IsLongLong(value)
    modifies f
    ensures !done ==> nwritten == -1 && !f.dry
    ensures done ==> |Print(value)| < LENERR && Fits(form, Print(value))
    ensures done ==> f.content == f.Plus(old(f.content), Stored(form, Print(value)))
    ensures done ==> nwritten == |Stored(form, Print(value))|
  {
    hide CInt, LenBytes, Print, IntBytes;
    SmallCInt();
    PrintShort(value);
    var enc := EncodeInteger(value);
    if |enc| > 0 {
      form := Integer(value);
      nwritten, done := f.WriteRaw(enc);
    } else {
      form := Verbatim;
      var buf := Ll2String(value);
      nwritten, done := SaveVerbatim(f, buf);
    }
  }

  /** A long long has at most twenty characters (the assertion at rdb.c:185). */
  lemma PrintShort(value: int)
    requires IsLongLong(value)
    ensures 0 < |Print(value)| <= 20
  {
    var n: nat := if value < 0 then -value else value;
    assert Pow10(2) == 100 && Pow10(4) == 10_000 && Pow10(6) == 1_000_000 && Pow10(8) == 100_000_000;
    assert Pow10(10) == 10_000_000_000 && Pow10(12) == 1_000_000_000_000 && Pow10(14) == 100_000_000_000_000;
    assert Pow10(16) == 10_000_000_000_000_000 && Pow10(18) == 1_000_000_000_000_000_000;
    DigitsShort(n, 19);
  }

  // ---- loading ------------------------------------------------------------

  /** The FILE that is loaded. */
  class Source {
    const input: bytes
    var pos: nat

    ghost predicate Valid()
      reads this
    {
      pos <= |input|
    }

    ghost function Left(): bytes
      requires Valid()
      reads this
    {
      input[pos..]
    }

    constructor (input: bytes)
      ensures Valid() && Left() == input
    {
      this.input := input;
      pos := 0;
    }

    /** fread of `n` bytes, which fails on none. */
    method Read(n: nat) returns (r: Option<bytes>)
      requires Valid() && n > 0
      modifies this`pos
      ensures Valid()
      ensures n <= |old(Left())| ==> r == Some(old(Left())[..n]) && Left() == old(Left())[n..]
      ensures n > |old(Left())| ==> r == None
    {
      if pos + n > |input| {
        return None;
      }
      r := Some(input[pos..pos + n]);
      assert input[pos..][..n] == input[pos..pos + n] && input[pos..][n..] == input[pos + n..];
      pos := pos + n;
    }

    /** rdbLoadLen. */
    method LoadLen() returns (r: Option<(bool, nat)>)
      requires Valid()
      modifies this`pos
      ensures Valid()
      ensures match ReadLen(old(Left()))
              case None => r == None
              case Some((encoded, len, rest)) => r == Some((encoded, len)) && Left() == rest
    {
      ghost var s := Left();
      var first := Read(1);
      if first == None {
        return None;
      }
      var b := first.value[0] as int;
      if b / 64 == 0 {
        return Some((false, b % 64));
      } else if b / 64 == 3 {
        return Some((true, b % 64));
      } else if b / 64 == 1 {
        var second := Read(1);
        if second == None {
          return None;
        }
        assert s[1..][..1] == [s[1]] && s[1..][1..] == s[2..];
        return Some((false, b % 64 * 256 + second.value[0] as int));
      }
      var four := Read(4);
      if four == None {
        return None;
      }
      assert s[1..][..4] == [s[1], s[2], s[3], s[4]] && s[1..][4..] == s[5..];
      var n := four.value[0] as int * 0x100_0000 + four.value[1] as int * 0x1_0000 +
               four.value[2] as int * 256 + four.value[3] as int;
      return if n == LENERR then None else Some((false, n));
    }

    /** rdbLoadIntegerObject. */
    method LoadIntegerObject(enctype: nat) returns (r: Result<bytes, LoadError>)
      requires Valid()
      modifies this`pos
      ensures Valid()
      ensures match LoadInteger(enctype, old(Left()))
              case Err(e) => r == Err(e)
              case Ok((v, rest)) => r == Ok(v) && Left() == rest
    {
      hide Print;
      var val: int;
      if enctype == 0 {
        var enc := Read(1);
        if enc == None { return Err(Null); }
        val := Signed(enc.value[0], 128);
      } else if enctype == 1 {
        var enc := Read(2);
        if enc == None { return Err(Null); }
        val := Signed(enc.value[0] as int + enc.value[1] as int * 256, 0x8000);
      } else if enctype == 2 {
        var enc := Read(4);
        if enc == None { return Err(Null); }
        val := Signed(enc.value[0] as int + enc.value[1] as int * 256 + enc.value[2] as int * 0x1_0000 +
                      enc.value[3] as int * 0x100_0000, 0x8000_0000);
      } else {
        return Err(Panic);
      }
      var text := Ll2String(val);
      return Ok(text);
    }

    /** rdbLoadLzfStringObject. */
    method LoadLzfObject() returns (r: Result<bytes, LoadError>)
      requires Valid()
      modifies this`pos
      ensures Valid()
      ensures match LoadLzf(old(Left()))
              case Err(e) => r == Err(e)
              case Ok((v, rest)) => r == Ok(v) && Left() == rest
    {
      hide ReadLen, LzfDecompress.Decode;
      var clen := LoadLen();
      if clen == None { return Err(Null); }
      var len := LoadLen();
      if len == None { return Err(Null); }
      if clen.value.1 == 0 { return Err(Null); }
      var c := Read(clen.value.1);
      if c == None { return Err(Null); }
      r := Inflate(c.value, len.value.1);
    }

    /** rdbGenericLoadStringObject. */
    method LoadStringObject() returns (r: Result<bytes, LoadError>)
      requires Valid()
      modifies this`pos
      ensures Valid()
      ensures match LoadString(old(Left()))
              case Err(e) => r == Err(e)
              case Ok((v, rest)) => r == Ok(v) && Left() == rest
    {
      hide ReadLen, LoadInteger, LoadLzf;
      var l := LoadLen();
      if l == None { return Err(Null); }
      var (encoded, len) := l.value;
      if encoded {
        if len == 0 || len == 1 || len == 2 {
          r := LoadIntegerObject(len);
        } else if len == 3 {
          r := LoadLzfObject();
        } else {
          r := Err(Panic);
        }
        return;
      }
      if len == 0 {
        assert Left()[..0] == [] && Left()[0..] == Left();
        return Ok([]);
      }
      var val := Read(len);
      return if val == None then Err(Null) else Ok(val.value);
    }
  }

  /** lzf_decompress into a string of `len` NULs. */
  method Inflate(c: bytes, len: nat) returns (r: Result<bytes, LoadError>)
    requires c != []
    ensures match LzfDecompress.Decode(c, [], len)
            case Err(_) => r == Err(Null)
            case Ok(v) => |v| <= len && r == if v == [] then Err(Null) else Ok(v + Nuls(len - |v|))
  {
    hide LzfDecompress.Decode;
    var src := new byte[|c|](i requires 0 <= i < |c| => c[i]);
    var val := new byte[len](_ => 0);
    assert src[..] == c;
    var n, errno := LzfDecompress.Decompress(src, val);
    if n == 0 {
      return Err(Null);
    }
    r := Ok(val[..]);
    assert val[..] == val[..n] + Nuls(len - n);
  }
}
