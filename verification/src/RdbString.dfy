/** How strings are laid out in an RDB file (redis.h:107-132, rdb.c:30-173) and
    what the loader makes of the bytes (rdb.c:552-659). */
module RdbString {
  import opened Common
  import opened Decimal
  import LzfFormat
  import LzfDecompress

  const LENERR: nat := 0xffff_ffff

  /** A string is stored as a small integer, compressed, or as it is. */
  datatype Form = Integer(value: int) | Lzf(items: seq<LzfFormat.Item>) | Verbatim

  function BigEndian(n: nat): (b: bytes)
    requires n <= LENERR
    ensures |b| == 4
  {
    [n / 0x100_0000, n / 0x1_0000 % 256, n / 0x100 % 256, n % 256]
  }

  function LenBytes(n: nat): (b: bytes)
    requires n <= LENERR
    ensures |b| == if n < 64 then 1 else if n < 0x4000 then 2 else 5
    ensures b[0] as int / 64 == if n < 64 then 0 else if n < 0x4000 then 1 else 2
    ensures b[0] as int % 64 == if n < 64 then n else if n < 0x4000 then n / 256 else 0
  {
    if n < 64 then [n]
    else if n < 0x4000 then [n / 256 + 64, n % 256]
    else [128] + BigEndian(n)
  }

  predicate IsInt32(v: int) { -0x8000_0000 <= v < 0x8000_0000 }

  /** One, two or four bytes in two's complement, the lowest first. */
  function IntBytes(v: int): (b: bytes)
    requires IsInt32(v)
    ensures |b| == if -128 <= v < 128 then 2 else if -0x8000 <= v < 0x8000 then 3 else 5
  {
    if -128 <= v < 128 then [192, v % 256]
    else if -0x8000 <= v < 0x8000 then [193, v % 256, v / 256 % 256]
    else [194, v % 256, v / 256 % 256, v / 0x1_0000 % 256, v / 0x100_0000 % 256]
  }

  predicate Fits(form: Form, s: bytes) {
    match form
    case Integer(v) => IsInt32(v) && Print(v) == s
    case Lzf(items) =>
      && LzfFormat.AllValid(items) && LzfFormat.Meaning([], items) == Some(s)
      && 0 < |LzfFormat.Encode(items)| && |LzfFormat.Encode(items)| + 4 <= |s|
    case Verbatim => true
  }

  /** The bytes of a string in one of its forms. */
  function Stored(form: Form, s: bytes): bytes
    requires Fits(form, s) && |s| < LENERR
  {
    match form
    case Integer(v) => IntBytes(v)
    case Lzf(items) =>
      var c := LzfFormat.Encode(items);
      [195] + LenBytes(|c|) + LenBytes(|s|) + c
    case Verbatim => LenBytes(|s|) + s
  }

  // ---- loading ------------------------------------------------------------

  /** A NULL result, and a redisPanic. */
  datatype LoadError = Null | Panic

  /** rdbLoadLen: whether an encoding follows, the length, and what is left. None
      at the end of the file and for the length that stands for an error. */
  function ReadLen(s: bytes): (r: Option<(bool, nat, bytes)>)
    ensures r.Some? ==> r.value.1 < LENERR && |r.value.2| < |s|
  {
    if s == [] then None
    else
      var kind, low := s[0] as int / 64, s[0] as int % 64;
      if kind == 0 then Some((false, low, s[1..]))
      else if kind == 3 then Some((true, low, s[1..]))
      else if kind == 1 then if |s| < 2 then None else Some((false, low * 256 + s[1] as int, s[2..]))
      else if |s| < 5 then None
      else
        var n := s[1] as int * 0x100_0000 + s[2] as int * 0x1_0000 + s[3] as int * 256 + s[4] as int;
        if n == LENERR then None else Some((false, n, s[5..]))
  }

  /** rdbLoadIntegerObject. */
  function LoadInteger(kind: nat, s: bytes): Result<(bytes, bytes), LoadError> {
    if kind == 0 then
      if |s| < 1 then Err(Null) else Ok((Print(Signed(s[0], 128)), s[1..]))
    else if kind == 1 then
      if |s| < 2 then Err(Null) else Ok((Print(Signed(s[0] as int + s[1] as int * 256, 0x8000)), s[2..]))
    else if kind == 2 then
      if |s| < 4 then Err(Null)
      else Ok((Print(Signed(s[0] as int + s[1] as int * 256 + s[2] as int * 0x1_0000 + s[3] as int * 0x100_0000,
                            0x8000_0000)), s[4..]))
    else Err(Panic)
  }

  function Nuls(n: nat): (z: bytes)
    ensures |z| == n
  {
    seq(n, i => 0)
  }

  lemma Bounded(c: bytes, len: nat)
    requires LzfDecompress.Decode(c, [], len).Ok?
    ensures |LzfDecompress.Decode(c, [], len).value| <= len
  {
    var _ := LzfDecompress.DecodeSound(c, [], len);
  }

  /** rdbLoadLzfStringObject. The result has the length that was stored, filled up
      with NULs if the data decompresses to less. */
  function LoadLzf(s: bytes): Result<(bytes, bytes), LoadError> {
    match ReadLen(s)
    case None => Err(Null)
    case Some((_, clen, s1)) =>
      match ReadLen(s1)
      case None => Err(Null)
      case Some((_, len, s2)) =>
        if clen == 0 || clen > |s2| then Err(Null)
        else match LzfDecompress.Decode(s2[..clen], [], len)
          case Err(_) => Err(Null)
          case Ok(v) =>
            Bounded(s2[..clen], len);
            if v == [] then Err(Null) else Ok((v + Nuls(len - |v|), s2[clen..]))
  }

  /** rdbGenericLoadStringObject: the string and what is left of the file. */
  function LoadString(s: bytes): Result<(bytes, bytes), LoadError> {
    match ReadLen(s)
    case None => Err(Null)
    case Some((encoded, len, s1)) =>
      if encoded then
        if len <= 2 then LoadInteger(len, s1)
        else if len == 3 then LoadLzf(s1)
        else Err(Panic)
      else if len > |s1| then Err(Null)
      else Ok((s1[..len], s1[len..]))
  }

  // ---- the round trip -----------------------------------------------------

  lemma BigEndianRead(n: nat)
    requires n <= LENERR
    ensures var b := BigEndian(n);
      b[0] as int * 0x100_0000 + b[1] as int * 0x1_0000 + b[2] as int * 256 + b[3] as int == n
  {
    assert n / 0x100 == n / 0x1_0000 * 256 + n / 0x100 % 256;
    assert n / 0x1_0000 == n / 0x100_0000 * 256 + n / 0x1_0000 % 256;
  }

  lemma LenRead(n: nat, rest: bytes)
    requires n < LENERR
    ensures ReadLen(LenBytes(n) + rest) == Some((false, n, rest))
  {
    var s := LenBytes(n) + rest;
    assert s[|LenBytes(n)|..] == rest;
    if n >= 0x4000 {
      BigEndianRead(n);
      var b := BigEndian(n);
      hide BigEndian;
      assert s[1] == b[0] && s[2] == b[1] && s[3] == b[2] && s[4] == b[3];
    }
  }

  lemma {:induction false} WordRead(v: int)
    requires IsInt32(v)
    ensures
      Signed(v % 256 + v / 256 % 256 * 256 + v / 0x1_0000 % 256 * 0x1_0000 + v / 0x100_0000 % 256 * 0x100_0000,
             0x8000_0000) == v
  {
    var a, b := v / 256, v / 0x1_0000;
    var c := v / 0x100_0000;
    assert a == b * 256 + a % 256;
    assert b == c * 256 + b % 256;
    assert v == a * 256 + v % 256;
    assert -128 <= c < 128;
  }

  lemma ShortRead(v: int)
    requires -0x8000 <= v < 0x8000
    ensures Signed(v % 256 + v / 256 % 256 * 256, 0x8000) == v
    ensures -128 <= v < 128 ==> Signed(v % 256, 128) == v
  {
  }

  lemma {:induction false} IntegerRead(v: int, rest: bytes)
    requires IsInt32(v)
    ensures LoadString(IntBytes(v) + rest) == Ok((Print(v), rest))
  {
    hide Print;
    WordRead(v);
    if -0x8000 <= v < 0x8000 { ShortRead(v); }
    var b := IntBytes(v);
    var s := b + rest;
    assert s[1..][|b| - 1..] == rest;
    assert forall i :: 0 <= i < |b| - 1 ==> s[1..][i] == b[i + 1];
  }

  lemma LzfRead(items: seq<LzfFormat.Item>, s: bytes, rest: bytes)
    requires Fits(Lzf(items), s) && |s| < LENERR
    ensures LoadString(Stored(Lzf(items), s) + rest) == Ok((s, rest))
  {
    hide LenBytes, ReadLen, LzfFormat.Encode, LzfFormat.Meaning, LzfFormat.AllValid, LzfDecompress.Decode;
    var c := LzfFormat.Encode(items);
    var all := Stored(Lzf(items), s) + rest;
    var s1 := LenBytes(|c|) + (LenBytes(|s|) + (c + rest));
    assert all == [195] + s1;
    EncodedHead(s1);
    LenRead(|c|, LenBytes(|s|) + (c + rest));
    LenRead(|s|, c + rest);
    assert (c + rest)[..|c|] == c && (c + rest)[|c|..] == rest;
    LzfDecompress.DecodeEncoded(items, [], |s|);
    assert s + Nuls(0) == s;
  }

  lemma EncodedHead(s: bytes)
    ensures ReadLen([195] + s) == Some((true, 3, s))
  {
    assert ([195] + s)[1..] == s;
  }

  /** Whatever its form, a stored string is loaded as it was, and what follows it
      is left. */
  lemma RoundTrip(form: Form, s: bytes, rest: bytes)
    requires Fits(form, s) && |s| < LENERR
    ensures LoadString(Stored(form, s) + rest) == Ok((s, rest))
  {
    match form
    case Integer(v) => IntegerRead(v, rest);
    case Lzf(items) => LzfRead(items, s, rest);
    case Verbatim =>
      hide LenBytes, ReadLen;
      assert LenBytes(|s|) + s + rest == LenBytes(|s|) + (s + rest);
      LenRead(|s|, s + rest);
      assert (s + rest)[..|s|] == s && (s + rest)[|s|..] == rest;
  }

  // ---- files that are cut short or malformed -----------------------------------

  /** The number in four bytes, the highest first. */
  function Word(s: bytes): nat
    requires |s| >= 4
  {
    ((s[0] as int * 256 + s[1] as int) * 256 + s[2] as int) * 256 + s[3] as int
  }

  /** Which bytes are loaded as a string that is not compressed, and which end the process:
      the first byte says how many follow, and from 196 on there is no such encoding. */
  lemma LoadsWhen(s: bytes)
    ensures s == [] ==> LoadString(s) == Err(Null)
    ensures LoadString(s) == Err(Panic) <==> s != [] && s[0] >= 196
    ensures s != [] && s[0] < 64 ==> (LoadString(s).Ok? <==> |s| >= 1 + s[0] as int)
    ensures s != [] && 64 <= s[0] < 128 ==>
      (LoadString(s).Ok? <==> |s| >= 2 && |s| >= 2 + (s[0] as int - 64) * 256 + s[1] as int)
    ensures s != [] && 128 <= s[0] < 192 ==>
      (LoadString(s).Ok? <==> |s| >= 5 && Word(s[1..5]) < LENERR && |s| >= 5 + Word(s[1..5]))
    ensures s != [] && 192 <= s[0] < 195 ==>
      (LoadString(s).Ok? <==> |s| >= (if s[0] == 192 then 2 else if s[0] == 193 then 3 else 5))
  {
    hide Signed, Print, LzfDecompress.Decode;
    if s != [] && s[0] >= 195 { EncodedLen(s); }
    if s != [] && s[0] == 195 { NoPanic(s[1..]); }
  }

  lemma EncodedLen(s: bytes)
    requires s != [] && s[0] >= 192
    ensures ReadLen(s) == Some((true, s[0] as int - 192, s[1..]))
  {
  }

  lemma NoPanic(s: bytes)
    ensures LoadLzf(s) != Err(Panic)
  {
    hide LzfDecompress.Decode;
  }

  /** A compressed string is loaded when both its lengths are there, its data is and is not
      empty, and the data decompresses within the length announced to something; and that
      is what is loaded, filled up with NULs. */
  lemma LzfLoadsWhen(s: bytes, v: bytes, rest: bytes)
    ensures LoadLzf(s) == Ok((v, rest)) <==>
      exists data, t, d :: LzfParts(s, data, t, d, |v|) && v == d + Nuls(|v| - |d|) && rest == t
  {
    hide LzfDecompress.Decode, ReadLen;
    if LoadLzf(s) == Ok((v, rest)) {
      var (_, clen, s1) := ReadLen(s).value;
      var (_, len, s2) := ReadLen(s1).value;
      assert s2 == s2[..clen] + s2[clen..];
      var d := LzfDecompress.Decode(s2[..clen], [], len).value;
      Bounded(s2[..clen], len);
      assert LzfParts(s, s2[..clen], s2[clen..], d, |v|);
    }
    if data, t, d :| LzfParts(s, data, t, d, |v|) && v == d + Nuls(|v| - |d|) && rest == t {
      var (_, clen, s1) := ReadLen(s).value;
      var (_, len, s2) := ReadLen(s1).value;
      assert s2[..clen] == data && s2[clen..] == t;
    }
  }

  /** Two lengths, of the data and of the string, and the data, which decompresses to `d`. */
  ghost predicate LzfParts(s: bytes, data: bytes, t: bytes, d: bytes, len: nat) {
    && data != [] && d != [] && |d| <= len
    && LzfDecompress.Decode(data, [], len) == Ok(d)
    && ReadLen(s).Some? && ReadLen(s).value.1 == |data|
    && var s1 := ReadLen(s).value.2;
       ReadLen(s1).Some? && ReadLen(s1).value.1 == len && ReadLen(s1).value.2 == data + t
  }
}
