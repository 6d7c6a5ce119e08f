/** How loadAppendOnlyFile cuts a file into commands (aof.c:308-342). */
module AofCodec {
  import opened Common
  import opened Decimal
  import opened Resp

  datatype LoadError = ReadErr | FmtErr

  const FGETS_MAX: nat := 127

  /** The length of what fgets(buf,128,fp) returns: up to 127 bytes, the last one
      being the first line feed among them if there is one. */
  function LineLength(s: bytes, max: nat): (n: nat)
    ensures n <= |s| && n <= max && (s != [] && max > 0 ==> n > 0)
    decreases max
  {
    if s == [] || max == 0 then 0 else if s[0] == LF then 1 else 1 + LineLength(s[1..], max - 1)
  }

  /** One argument and what follows it in the file. */
  function DecodeArg(s: bytes): (r: Result<(bytes, bytes), LoadError>)
    ensures r.Ok? ==> |r.value.1| < |s|
  {
    if s == [] then Err(ReadErr)
    else
      var n := LineLength(s, FGETS_MAX);
      var len := Atol(s[1..n]);
      if s[0] != DOLLAR then Err(FmtErr)
      else if len < 0 || n + len + 2 > |s| then Err(FmtErr)
      else Ok((s[n..n + len], s[n + len + 2..]))
  }

  function DecodeArgs(s: bytes, argc: nat): (r: Result<(seq<bytes>, bytes), LoadError>)
    ensures r.Ok? ==> |r.value.1| <= |s| && |r.value.0| == argc
    decreases argc
  {
    if argc == 0 then Ok(([], s))
    else match DecodeArg(s)
      case Err(e) => Err(e)
      case Ok((a, s1)) =>
        match DecodeArgs(s1, argc - 1)
        case Err(e) => Err(e)
        case Ok((rest, s2)) => Ok(([a] + rest, s2))
  }

  function DecodeCommand(s: bytes): (r: Result<(Command, bytes), LoadError>)
    requires s != []
    ensures r.Ok? ==> |r.value.1| < |s| && |r.value.0| >= 1
  {
    var n := LineLength(s, FGETS_MAX);
    var argc := Atol(s[1..n]);
    if s[0] != STAR || argc < 1 then Err(FmtErr) else DecodeArgs(s[n..], argc)
  }

  function Decode(s: bytes): (r: Result<seq<Command>, LoadError>)
    decreases |s|
  {
    if s == [] then Ok([])
    else match DecodeCommand(s)
      case Err(e) => Err(e)
      case Ok((c, rest)) =>
        match Decode(rest)
        case Err(e) => Err(e)
        case Ok(cs) => Ok([c] + cs)
  }

  // ---- decoding undoes encoding ------------------------------------------

  /** A number short enough for the 128-byte line buffer; every int and long is. */
  predicate ShortNumber(n: nat) { |Digits(n)| <= 20 }

  predicate Loadable(c: Command) {
    |c| >= 1 && ShortNumber(|c|) && forall i :: 0 <= i < |c| ==> ShortNumber(|c[i]|)
  }

  predicate AllLoadable(cs: seq<Command>) {
    forall i :: 0 <= i < |cs| ==> Loadable(cs[i])
  }

  lemma {:induction false} LineLengthIs(s: bytes, k: nat, max: nat)
    requires k < |s| && k < max && s[k] == LF && forall i :: 0 <= i < k ==> s[i] != LF
    ensures LineLength(s, max) == k + 1
    decreases max
  {
    if k > 0 {
      assert s[0] != LF;
      LineLengthIs(s[1..], k - 1, max - 1);
    }
  }

  /** A count line is read back, whatever follows it. */
  lemma LineDecoded(prefix: byte, n: nat, rest: bytes)
    requires ShortNumber(n) && prefix != LF
    ensures var s := Line(prefix, n) + rest;
            && s != [] && s[0] == prefix && LineLength(s, FGETS_MAX) == |Line(prefix, n)|
            && Atol(s[1..|Line(prefix, n)|]) == n && s[|Line(prefix, n)|..] == rest
  {
    var s, line, d := Line(prefix, n) + rest, Line(prefix, n), Digits(n);
    var k := |line| - 1;
    forall i | 0 <= i < k ensures s[i] != LF {
      if 0 < i <= |d| { assert s[i] == d[i - 1]; }
    }
    assert s[k] == LF;
    LineLengthIs(s, k, FGETS_MAX);
    var t := s[1..|line|];
    assert t == d + CRLF;
    assert t[0] == d[0] && IsDigit(d[0]);
    DigitPrefixOf(d, CRLF);
    ValueOfDigits(n);
  }

  lemma ArgDecoded(a: bytes, rest: bytes)
    requires ShortNumber(|a|)
    ensures DecodeArg(EncodeBulk(a) + rest) == Ok((a, rest))
  {
    hide Line, Atol, LineLength, Digits;
    var s, n := EncodeBulk(a) + rest, |Line(DOLLAR, |a|)|;
    assert s == Line(DOLLAR, |a|) + (a + CRLF + rest);
    LineDecoded(DOLLAR, |a|, a + CRLF + rest);
    assert s[n..n + |a|] == s[n..][..|a|] == a;
    assert s[n + |a| + 2..] == s[n..][|a| + 2..] == rest;
  }

  lemma {:induction false} ArgsDecoded(args: seq<bytes>, rest: bytes)
    requires forall i :: 0 <= i < |args| ==> ShortNumber(|args[i]|)
    ensures DecodeArgs(EncodeArgs(args) + rest, |args|) == Ok((args, rest))
  {
    hide DecodeArg, EncodeBulk, ShortNumber;
    if args == [] {
      assert EncodeArgs(args) + rest == rest;
    } else {
      assert args == [args[0]] + args[1..];
      assert EncodeArgs(args) + rest == EncodeBulk(args[0]) + (EncodeArgs(args[1..]) + rest);
      ArgDecoded(args[0], EncodeArgs(args[1..]) + rest);
      ArgsDecoded(args[1..], rest);
    }
  }

  lemma CommandDecoded(c: Command, rest: bytes)
    requires Loadable(c)
    ensures DecodeCommand(EncodeCommand(c) + rest) == Ok((c, rest))
  {
    assert EncodeCommand(c) + rest == Line(STAR, |c|) + (EncodeArgs(c) + rest);
    LineDecoded(STAR, |c|, EncodeArgs(c) + rest);
    ArgsDecoded(c, rest);
  }

  /** A file of encoded commands decodes to them. */
  lemma {:induction false} DecodeEncoded(cs: seq<Command>)
    requires AllLoadable(cs)
    ensures Decode(EncodeAll(cs)) == Ok(cs)
    decreases |cs|
  {
    if cs != [] {
      CommandDecoded(cs[0], EncodeAll(cs[1..]));
      DecodeEncoded(cs[1..]);
      assert cs == [cs[0]] + cs[1..];
    }
  }

  // ---- appending to a file keeps what it decodes to ------------------------

  /** A line that ends before the end of the file does not change when the file grows. */
  lemma {:induction false} LineStays(s: bytes, t: bytes, max: nat)
    requires LineLength(s, max) < |s|
    ensures LineLength(s + t, max) == LineLength(s, max)
    decreases max
  {
    if s != [] && max > 0 && s[0] != LF {
      assert (s + t)[1..] == s[1..] + t;
      LineStays(s[1..], t, max - 1);
    }
  }

  lemma ArgStays(s: bytes, t: bytes)
    requires DecodeArg(s).Ok?
    ensures var (a, rest) := DecodeArg(s).value; DecodeArg(s + t) == Ok((a, rest + t))
  {
    hide LineLength, Atol;
    var n := LineLength(s, FGETS_MAX);
    LineStays(s, t, FGETS_MAX);
    assert (s + t)[1..n] == s[1..n];
    var len := Atol(s[1..n]);
    assert (s + t)[n..n + len] == s[n..n + len];
    assert (s + t)[n + len + 2..] == s[n + len + 2..] + t;
  }

  lemma {:induction false} ArgsStay(s: bytes, t: bytes, argc: nat)
    requires DecodeArgs(s, argc).Ok?
    ensures var (args, rest) := DecodeArgs(s, argc).value; DecodeArgs(s + t, argc) == Ok((args, rest + t))
    ensures argc > 0 ==> s != []
    decreases argc
  {
    hide DecodeArg;
    if argc > 0 {
      ArgStays(s, t);
      var (a, s1) := DecodeArg(s).value;
      ArgsStay(s1, t, argc - 1);
    }
  }

  lemma CommandStays(s: bytes, t: bytes)
    requires s != [] && DecodeCommand(s).Ok?
    ensures var (c, rest) := DecodeCommand(s).value; DecodeCommand(s + t) == Ok((c, rest + t))
  {
    hide LineLength, Atol, DecodeArgs;
    var n := LineLength(s, FGETS_MAX);
    ArgsStay(s[n..], t, Atol(s[1..n]));
    LineStays(s, t, FGETS_MAX);
    assert (s + t)[1..n] == s[1..n] && (s + t)[n..] == s[n..] + t;
  }

  /** Whatever is appended to a file of whole commands is decoded on its own. */
  lemma {:induction false} DecodeConcat(s: bytes, t: bytes)
    requires Decode(s).Ok?
    ensures Decode(s + t) ==
      match Decode(t)
      case Err(e) => Err(e)
      case Ok(more) => Ok(Decode(s).value + more)
    decreases |s|
  {
    hide DecodeCommand;
    if s == [] {
      assert s + t == t;
      if Decode(t).Ok? { assert [] + Decode(t).value == Decode(t).value; }
    } else {
      CommandStays(s, t);
      var (c, rest) := DecodeCommand(s).value;
      DecodeConcat(rest, t);
      if Decode(t).Ok? {
        assert [c] + (Decode(rest).value + Decode(t).value) == [c] + Decode(rest).value + Decode(t).value;
      }
    }
  }
}
