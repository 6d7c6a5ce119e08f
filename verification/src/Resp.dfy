/** The multi bulk format in which commands reach the server and the append only
    file: aof.c:158-181. */
module Resp {
  import opened Common
  import opened Decimal

  const CR: byte := 13
  const LF: byte := 10
  const STAR: byte := 42
  const DOLLAR: byte := 36
  const CRLF: bytes := [13, 10]

  type Command = seq<bytes>

  /** A count line: the prefix, the number and CRLF. */
  function Line(prefix: byte, n: nat): (r: bytes)
    ensures |r| == 1 + |Digits(n)| + 2
  {
    [prefix] + Digits(n) + CRLF
  }

  function EncodeBulk(a: bytes): (r: bytes)
    ensures |r| == |Line(DOLLAR, |a|)| + |a| + 2
  {
    Line(DOLLAR, |a|) + a + CRLF
  }

  function EncodeArgs(args: seq<bytes>): bytes {
    if args == [] then [] else EncodeBulk(args[0]) + EncodeArgs(args[1..])
  }

  function EncodeCommand(c: Command): (r: bytes)
    ensures |r| >= 4
  {
    Line(STAR, |c|) + EncodeArgs(c)
  }

  function EncodeAll(cs: seq<Command>): bytes {
    if cs == [] then [] else EncodeCommand(cs[0]) + EncodeAll(cs[1..])
  }

  lemma {:induction false} EncodeArgsAppend(args: seq<bytes>, a: bytes)
    ensures EncodeArgs(args + [a]) == EncodeArgs(args) + EncodeBulk(a)
  {
    if args == [] {
      assert (args + [a])[1..] == [];
    } else {
      assert (args + [a])[1..] == args[1..] + [a];
      EncodeArgsAppend(args[1..], a);
    }
  }

  lemma {:induction false} EncodeAllConcat(a: seq<Command>, b: seq<Command>)
    ensures EncodeAll(a + b) == EncodeAll(a) + EncodeAll(b)
  {
    if a == [] {
      assert a + b == b;
    } else {
      assert (a + b)[1..] == a[1..] + b;
      EncodeAllConcat(a[1..], b);
    }
  }

  lemma EncodeOne(c: Command)
    ensures EncodeAll([c]) == EncodeCommand(c)
  {
    hide EncodeCommand;
    var one := [c];
    assert one[1..] == [];
  }

  /** catAppendOnlyGenericCommand. */
  method CatGenericCommand(dst: bytes, argv: Command) returns (r: bytes)
    ensures r == dst + EncodeCommand(argv)
  {
    hide Digits;
    var n := Ll2String(|argv|);
    r := dst + ([STAR] + n + CRLF);
    assert argv[..0] == [];
    for j := 0 to |argv|
      invariant r == dst + (Line(STAR, |argv|) + EncodeArgs(argv[..j]))
    {
      assert argv[..j + 1] == argv[..j] + [argv[j]];
      EncodeArgsAppend(argv[..j], argv[j]);
      var len := Ll2String(|argv[j]|);
      ghost var was := r;
      r := r + ([DOLLAR] + len + CRLF);
      r := r + argv[j];
      r := r + CRLF;
      assert r == was + EncodeBulk(argv[j]);
    }
    assert argv[..|argv|] == argv;
  }

  /** The first '\\r' of a text, which ends at its first NUL as C strings do (strchr). */
  function FindCr(s: bytes): (r: Option<nat>)
    ensures r.Some? ==> r.value < |s| && s[r.value] == CR && forall i :: 0 <= i < r.value ==> s[i] != CR && s[i] != 0
    ensures r == None ==> forall i :: 0 <= i < |s| && s[i] == CR ==> exists j :: 0 <= j < i && s[j] == 0
  {
    if s == [] || s[0] == 0 then None
    else if s[0] == CR then Some(0)
    else match FindCr(s[1..])
      case None => None
      case Some(i) => Some(i + 1)
  }

  /** A count line is found once its '\r' has arrived, whatever follows. */
  lemma {:induction false} LineFound(prefix: byte, n: nat, s: bytes)
    requires prefix != CR && prefix != 0
    requires |s| > 1 + |Digits(n)| && s[..2 + |Digits(n)|] == Line(prefix, n)[..2 + |Digits(n)|]
    ensures FindCr(s) == Some(1 + |Digits(n)|)
  {
    var k := 1 + |Digits(n)|;
    var l := Line(prefix, n);
    assert s[..k + 1][k] == l[..k + 1][k] == CR;
    forall i | 0 <= i < k ensures s[i] != CR && s[i] != 0 {
      assert s[i] == s[..k + 1][i] == l[..k + 1][i] == l[i];
      if i > 0 { assert l[i] == Digits(n)[i - 1]; }
    }
  }

  /** No '\r' is found before the line's own has arrived. */
  lemma LineNotFound(prefix: byte, n: nat, k: nat)
    requires prefix != CR && k <= 1 + |Digits(n)|
    ensures FindCr(Line(prefix, n)[..k]) == None
  {
    var s := Line(prefix, n)[..k];
    forall i | 0 <= i < k ensures s[i] != CR {
      if i > 0 { assert s[i] == Digits(n)[i - 1]; }
    }
  }

  /** The number on a count line. */
  lemma LineNumber(prefix: byte, n: nat, s: bytes)
    requires n <= LLONG_MAX && |s| >= |Line(prefix, n)| && s[..|Line(prefix, n)|] == Line(prefix, n)
    ensures s[0] == prefix && Canonical(s[1..1 + |Digits(n)|]) == Some(n)
  {
    var l := Line(prefix, n);
    assert s[0] == s[..|l|][0] == l[0];
    assert s[1..1 + |Digits(n)|] == s[..|l|][1..1 + |Digits(n)|] == l[1..1 + |Digits(n)|] == Print(n);
    CanonicalPrint(n);
  }
}
