/**
Which bytes the loader and the repair tool take for commands (aof.c:308-342,
redis-check-aof.c:27-73): told by lines, numbers and arguments rather than by the
functions that read them, with the error each other file ends in.
*/
module AofExact {
  import opened Common
  import opened Decimal
  import opened Resp
  import opened AofCodec
  import opened AofReplay
  import CheckAof

  // ---- names ------------------------------------------------------------------------

  function Letters(t: string): bytes
    requires forall i :: 0 <= i < |t| ==> t[i] as int < 256
  {
    seq(|t|, i requires 0 <= i < |t| => t[i] as int)
  }

  lemma Names()
    ensures SELECT == Letters("SELECT") && MULTI == Letters("MULTI") && EXEC == Letters("EXEC")
    ensures SET == Letters("SET") && DEL == Letters("DEL") && EXPIREAT == Letters("EXPIREAT")
    ensures RPUSH == Letters("RPUSH") && SADD == Letters("SADD")
    ensures ZADD == Letters("ZADD") && HSET == Letters("HSET")
  {
  }

  /** Names are compared without regard to the case of the letters. */
  lemma UpperLetter(s: bytes, i: nat)
    requires i < |s|
    ensures 'a' <= s[i] as char <= 'z' ==> Upper(s)[i] - 'A' as int == s[i] - 'a' as int
    ensures !('a' <= s[i] as char <= 'z') ==> Upper(s)[i] == s[i]
  {
  }

  // ---- numbers ------------------------------------------------------------------

  predicate AllBlank(s: bytes) {
    forall i :: 0 <= i < |s| ==> s[i] as char in " \t\n\r\U{0B}\U{0C}"
  }

  predicate IsSign(s: bytes) {
    s == [] || s == ['-' as int] || s == ['+' as int]
  }

  /** Blanks, a sign, digits, and something that does not begin with a digit. */
  predicate Numeral(blanks: bytes, sign: bytes, d: bytes, t: bytes) {
    AllBlank(blanks) && IsSign(sign) && AllDigits(d) && d != [] && (t == [] || !IsDigit(t[0]))
  }

  function Signum(sign: bytes, d: bytes): int
    requires AllDigits(d)
  {
    if sign == ['-' as int] then -(Decimal.Value(d) as int) else Decimal.Value(d)
  }

  lemma {:induction false} SkipBlanksOf(blanks: bytes, t: bytes)
    requires AllBlank(blanks) && (t == [] || !AllBlank(t[..1]))
    ensures SkipBlanks(blanks + t) == t
    decreases |blanks|
  {
    if blanks == [] {
      assert blanks + t == t;
      if t != [] { assert t[..1][0] == t[0]; }
    } else {
      var s := blanks + t;
      assert blanks[0] as char in " \t\n\r\U{0B}\U{0C}" && s[0] == blanks[0];
      assert s[1..] == blanks[1..] + t;
      SkipBlanksOf(blanks[1..], t);
    }
  }

  /** strtoll reads a numeral, held within 64 bits, and stops behind its digits; atoi
      reads the number. */
  lemma NumeralRead(blanks: bytes, sign: bytes, d: bytes, t: bytes)
    requires Numeral(blanks, sign, d, t)
    ensures var s, v := blanks + (sign + (d + t)), Signum(sign, d);
      && Atol(s) == v
      && Strtoll(s) == (if v < LLONG_MIN then LLONG_MIN else if v > LLONG_MAX then LLONG_MAX else v, t)
  {
    hide Decimal.Value;
    assert IsDigit(d[0]);
    var u := d + t;
    var w := sign + u;
    assert sign == [] ==> w == u;
    assert sign != [] ==> w[0] == sign[0] && w[1..] == u;
    assert w[0] == if sign == [] then d[0] else sign[0];
    assert w[..1][0] == w[0];
    SkipBlanksOf(blanks, w);
    DigitPrefixOf(d, t);
    assert u[|d|..] == t;
    hide DigitPrefix, SkipBlanks;
  }

  /** Where no digit follows the blanks and the sign there is no number, and nothing is
      read. */
  lemma NoNumeral(blanks: bytes, sign: bytes, t: bytes)
    requires AllBlank(blanks) && IsSign(sign) && (t == [] || !IsDigit(t[0]))
    requires sign == [] && t != [] ==> !AllBlank(t[..1]) && !IsSign(t[..1])
    ensures Atol(blanks + (sign + t)) == 0 && Strtoll(blanks + (sign + t)) == (0, blanks + (sign + t))
  {
    var w := sign + t;
    assert sign == [] ==> w == t;
    assert sign != [] ==> w[0] == sign[0] && w[1..] == t && w[..1][0] == sign[0];
    assert w != [] ==> w[..1] == [w[0]];
    SkipBlanksOf(blanks, w);
    assert DigitPrefix(t) == [];
    hide SkipBlanks;
  }

  // ---- lines ------------------------------------------------------------------

  /** The first `n` bytes are what fgets takes: up to the first line feed, to the end
      of the file, or 127 bytes, whichever comes first. */
  predicate IsLine(s: bytes, n: nat) {
    && 0 < n <= |s| && n <= FGETS_MAX
    && (forall i :: 0 <= i < n - 1 ==> s[i] != LF)
    && (s[n - 1] == LF || n == |s| || n == FGETS_MAX)
  }

  lemma {:induction false} LineBounds(s: bytes, max: nat)
    requires s != [] && max > 0
    ensures var n := LineLength(s, max);
      && 0 < n <= |s| && n <= max
      && (forall i :: 0 <= i < n - 1 ==> s[i] != LF)
      && (s[n - 1] == LF || n == |s| || n == max)
    decreases max
  {
    if s[0] != LF && |s| > 1 && max > 1 {
      var t := s[1..];
      LineBounds(t, max - 1);
      var n := LineLength(t, max - 1);
      forall i | 0 <= i < n ensures s[i] != LF {
        if i > 0 { assert s[i] == t[i - 1]; }
      }
    }
  }

  lemma LineExact(s: bytes, n: nat)
    ensures IsLine(s, n) <==> s != [] && n == LineLength(s, FGETS_MAX)
  {
    hide LineLength;
    if s != [] { LineBounds(s, FGETS_MAX); }
  }

  // ---- the loader ------------------------------------------------------------------

  /** An argument for the loader: a line with a dollar sign and a number, as many bytes,
      and two more. */
  ghost predicate LoadsArg(s: bytes, n: nat, a: bytes, rest: bytes) {
    && IsLine(s, n) && s[0] == '$' as int && Atol(s[1..n]) == |a|
    && n + |a| + 2 <= |s| && a == s[n..n + |a|] && rest == s[n + |a| + 2..]
  }

  lemma ArgExact(s: bytes, a: bytes, rest: bytes)
    ensures DecodeArg(s) == Ok((a, rest)) <==> exists n :: LoadsArg(s, n, a, rest)
    ensures DecodeArg(s) == Err(ReadErr) <==> s == []
  {
    hide Atol, LineLength;
    forall n: nat ensures IsLine(s, n) <==> s != [] && n == LineLength(s, FGETS_MAX) { LineExact(s, n); }
    if DecodeArg(s) == Ok((a, rest)) { assert LoadsArg(s, LineLength(s, FGETS_MAX), a, rest); }
  }

  ghost predicate LoadsArgs(s: bytes, args: seq<bytes>, rest: bytes)
    decreases |args|
  {
    if args == [] then rest == s
    else exists n, t :: LoadsArg(s, n, args[0], t) && LoadsArgs(t, args[1..], rest)
  }

  lemma {:induction false} ArgsExact(s: bytes, args: seq<bytes>, rest: bytes)
    ensures DecodeArgs(s, |args|) == Ok((args, rest)) <==> LoadsArgs(s, args, rest)
    decreases |args|
  {
    hide DecodeArg, LoadsArg;
    if args != [] {
      if DecodeArgs(s, |args|) == Ok((args, rest)) {
        var (a, t) := DecodeArg(s).value;
        ArgExact(s, a, t);
        var n :| LoadsArg(s, n, a, t);
        assert DecodeArgs(t, |args| - 1).value.0 == args[1..];
        ArgsExact(t, args[1..], rest);
        assert LoadsArg(s, n, args[0], t) && LoadsArgs(t, args[1..], rest);
      }
      if LoadsArgs(s, args, rest) {
        var n, t :| LoadsArg(s, n, args[0], t) && LoadsArgs(t, args[1..], rest);
        ArgExact(s, args[0], t);
        ArgsExact(t, args[1..], rest);
        assert [args[0]] + args[1..] == args;
      }
    }
  }

  /** A command for the loader: a line with a star and a number from 1 on, and as many
      arguments. */
  ghost predicate LoadsCommand(s: bytes, n: nat, c: Command, rest: bytes) {
    IsLine(s, n) && s[0] == '*' as int && c != [] && Atol(s[1..n]) == |c| && LoadsArgs(s[n..], c, rest)
  }

  lemma CommandExact(s: bytes, c: Command, rest: bytes)
    requires s != []
    ensures DecodeCommand(s) == Ok((c, rest)) <==> exists n :: LoadsCommand(s, n, c, rest)
  {
    hide Atol, LineLength, LoadsArgs, DecodeArgs;
    forall n: nat ensures IsLine(s, n) <==> s != [] && n == LineLength(s, FGETS_MAX) { LineExact(s, n); }
    hide IsLine;
    var n := LineLength(s, FGETS_MAX);
    ArgsExact(s[n..], c, rest);
    if DecodeCommand(s) == Ok((c, rest)) { assert LoadsCommand(s, n, c, rest); }
  }

  /** Whole commands, and what follows them. */
  ghost predicate LoadsTo(s: bytes, cs: seq<Command>, rest: bytes)
    decreases |cs|
  {
    if cs == [] then rest == s
    else exists n, t :: LoadsCommand(s, n, cs[0], t) && LoadsTo(t, cs[1..], rest)
  }

  /** The loader takes a file for a list of commands if and only if that is what it
      spells; in particular whatever follows the digits of a number, and the two bytes
      behind an argument, are not looked at. */
  lemma {:induction false} FileExact(s: bytes, cs: seq<Command>)
    ensures Decode(s) == Ok(cs) <==> LoadsTo(s, cs, [])
    decreases |cs|
  {
    hide DecodeCommand, LoadsCommand;
    if s == [] {
      if cs != [] {
        forall n, t ensures !LoadsCommand(s, n, cs[0], t) { NothingLoads(n, cs[0], t); }
      }
    } else if cs != [] {
      if Decode(s) == Ok(cs) {
        var (c, t) := DecodeCommand(s).value;
        CommandExact(s, c, t);
        var n :| LoadsCommand(s, n, c, t);
        assert Decode(t).value == cs[1..];
        FileExact(t, cs[1..]);
        assert LoadsCommand(s, n, cs[0], t) && LoadsTo(t, cs[1..], []);
      }
      if LoadsTo(s, cs, []) {
        var n, t :| LoadsCommand(s, n, cs[0], t) && LoadsTo(t, cs[1..], []);
        CommandExact(s, cs[0], t);
        FileExact(t, cs[1..]);
        assert [cs[0]] + cs[1..] == cs;
      }
    }
  }

  lemma NothingLoads(n: nat, c: Command, rest: bytes)
    ensures !LoadsCommand([], n, c, rest)
  {
  }

  // ---- the errors of the loader -----------------------------------------------------

  lemma {:induction false} ArgsTorn(s: bytes, argc: nat)
    ensures DecodeArgs(s, argc) == Err(ReadErr) <==> exists args :: |args| < argc && LoadsArgs(s, args, [])
    decreases argc
  {
    hide DecodeArg, LoadsArg;
    if DecodeArgs(s, argc) == Err(ReadErr) {
      if DecodeArg(s).Ok? {
        var (a, t) := DecodeArg(s).value;
        ArgExact(s, a, t);
        ArgsTorn(t, argc - 1);
        var n, more :| LoadsArg(s, n, a, t) && |more| < argc - 1 && LoadsArgs(t, more, []);
        var args := [a] + more;
        assert args[1..] == more && LoadsArg(s, n, args[0], t);
        assert LoadsArgs(s, args, []);
      } else {
        ArgExact(s, [], []);
        assert LoadsArgs(s, [], []);
      }
    }
    if args :| |args| < argc && LoadsArgs(s, args, []) {
      if args == [] {
        ArgExact(s, [], []);
      } else {
        var n, t :| LoadsArg(s, n, args[0], t) && LoadsArgs(t, args[1..], []);
        ArgExact(s, args[0], t);
        ArgsTorn(t, argc - 1);
      }
    }
  }

  /** A command that goes on when the file ends where one of its arguments should begin. */
  ghost predicate Torn(s: bytes, n: nat) {
    && IsLine(s, n) && s[0] == '*' as int
    && exists args :: |args| < Atol(s[1..n]) && LoadsArgs(s[n..], args, [])
  }

  lemma CommandTorn(s: bytes)
    requires s != []
    ensures DecodeCommand(s) == Err(ReadErr) <==> exists n :: Torn(s, n)
  {
    hide Atol, LineLength, LoadsArgs, DecodeArgs;
    forall n: nat ensures IsLine(s, n) <==> s != [] && n == LineLength(s, FGETS_MAX) { LineExact(s, n); }
    hide IsLine;
    var n := LineLength(s, FGETS_MAX);
    var argc := Atol(s[1..n]);
    if argc >= 1 { ArgsTorn(s[n..], argc); }
    if DecodeCommand(s) == Err(ReadErr) { assert Torn(s, n); }
  }

  /** Of the files that are no list of commands, the loader reports an unexpected end for
      those that end where an argument should begin, and a bad format for all others. */
  lemma {:induction false} EndExact(s: bytes)
    ensures Decode(s) == Err(ReadErr) <==> exists cs, t, n :: LoadsTo(s, cs, t) && Torn(t, n)
    decreases |s|
  {
    hide DecodeCommand, LoadsCommand, Torn;
    if Decode(s) == Err(ReadErr) {
      if DecodeCommand(s).Err? {
        CommandTorn(s);
        var n :| Torn(s, n);
        assert LoadsTo(s, [], s);
      } else {
        var (c, u) := DecodeCommand(s).value;
        CommandExact(s, c, u);
        EndExact(u);
        var m :| LoadsCommand(s, m, c, u);
        var more, t, n :| LoadsTo(u, more, t) && Torn(t, n);
        var cs := [c] + more;
        assert cs[1..] == more && LoadsCommand(s, m, cs[0], u);
        assert LoadsTo(s, cs, t);
      }
    }
    if cs, t, n :| LoadsTo(s, cs, t) && Torn(t, n) { TornFails(s, cs, t, n); }
  }

  lemma {:induction false} TornFails(s: bytes, cs: seq<Command>, t: bytes, n: nat)
    requires LoadsTo(s, cs, t) && Torn(t, n)
    ensures Decode(s) == Err(ReadErr)
    decreases |cs|
  {
    hide DecodeCommand, LoadsCommand, Torn;
    if cs == [] {
      TornSome(t, n);
      CommandTorn(t);
    } else {
      var m, u :| LoadsCommand(s, m, cs[0], u) && LoadsTo(u, cs[1..], t);
      if s == [] { NothingLoads(m, cs[0], u); }
      CommandExact(s, cs[0], u);
      TornFails(u, cs[1..], t, n);
    }
  }

  lemma TornSome(s: bytes, n: nat)
    requires Torn(s, n)
    ensures s != []
  {
  }

  // ---- the repair tool ----------------------------------------------------------------

  /** A C string ends before the first NUL. */
  lemma {:induction false} CStringEnds(s: bytes)
    ensures var n := |CString(s)|; n == |s| || s[n] == 0
  {
    if s != [] && s[0] != 0 { CStringEnds(s[1..]); }
  }

  /** A line for the tool: the prefix, and a number with CRLF right behind it. */
  ghost predicate ReadsLine(s: bytes, prefix: byte, n: nat, v: int, rest: bytes) {
    && IsLine(s, n) && s[0] == prefix && rest == s[n..]
    && exists t :: Strtoll(CString(s[1..n])) == (v, CRLF + t)
  }

  lemma LongExact(s: bytes, prefix: byte, v: int, rest: bytes)
    ensures CheckAof.ReadLong(s, prefix) == Ok((v, rest)) <==> exists n :: ReadsLine(s, prefix, n, v, rest)
  {
    hide LineLength, Strtoll, CString;
    forall n: nat ensures IsLine(s, n) <==> s != [] && n == LineLength(s, FGETS_MAX) { LineExact(s, n); }
    hide IsLine;
    if s != [] {
      var n := LineLength(s, FGETS_MAX);
      var t := Strtoll(CString(s[1..n])).1;
      if |t| >= 2 && t[..2] == CRLF { assert t == CRLF + t[2..]; }
      if CheckAof.ReadLong(s, prefix) == Ok((v, rest)) { assert ReadsLine(s, prefix, n, v, rest); }
      forall u | t == CRLF + u ensures |t| >= 2 && t[..2] == CRLF {}
    }
  }

  /** A string for the tool: such a line with a dollar sign, as many bytes as it says,
      and CRLF. */
  lemma StringExact(s: bytes, a: bytes, rest: bytes)
    ensures CheckAof.ReadString(s) == Ok((a, rest)) <==>
      exists n, t :: ReadsLine(s, DOLLAR, n, |a|, t) && t == a + CRLF + rest
  {
    hide CheckAof.ReadLong, ReadsLine;
    if CheckAof.ReadString(s) == Ok((a, rest)) {
      var (len, t) := CheckAof.ReadLong(s, DOLLAR).value;
      LongExact(s, DOLLAR, len, t);
      var n :| ReadsLine(s, DOLLAR, n, len, t);
      assert t == t[..len] + t[len..len + 2] + t[len + 2..];
      assert ReadsLine(s, DOLLAR, n, |a|, t);
    }
    if n, t :| ReadsLine(s, DOLLAR, n, |a|, t) && t == a + CRLF + rest {
      LongExact(s, DOLLAR, |a|, t);
      assert t[|a|..|a| + 2] == CRLF && t[..|a|] == a && t[|a| + 2..] == rest;
    }
  }

  ghost predicate ReadsString(s: bytes, n: nat, t: bytes, a: bytes, rest: bytes) {
    ReadsLine(s, DOLLAR, n, |a|, t) && t == a + CRLF + rest
  }

  ghost predicate ReadsStrings(s: bytes, args: seq<bytes>, rest: bytes)
    decreases |args|
  {
    if args == [] then rest == s
    else exists n, t, u :: ReadsString(s, n, t, args[0], u) && ReadsStrings(u, args[1..], rest)
  }

  lemma {:induction false} StringsExact(s: bytes, argc: int, args: seq<bytes>, rest: bytes)
    requires |args| == if argc < 0 then 0 else argc
    ensures CheckAof.ReadStrings(s, argc) == Ok((args, rest)) <==> ReadsStrings(s, args, rest)
    decreases |args|
  {
    hide CheckAof.ReadString, ReadsString;
    if args != [] {
      if CheckAof.ReadStrings(s, argc) == Ok((args, rest)) {
        var (a, u) := CheckAof.ReadString(s).value;
        StringParts(s, a, u);
        var n, t :| ReadsString(s, n, t, a, u);
        assert CheckAof.ReadStrings(u, argc - 1).value.0 == args[1..];
        StringsExact(u, argc - 1, args[1..], rest);
        assert ReadsString(s, n, t, args[0], u) && ReadsStrings(u, args[1..], rest);
      }
      if ReadsStrings(s, args, rest) {
        var n, t, u :| ReadsString(s, n, t, args[0], u) && ReadsStrings(u, args[1..], rest);
        StringParts(s, args[0], u);
        StringsExact(u, argc - 1, args[1..], rest);
        assert [args[0]] + args[1..] == args;
      }
    }
  }

  lemma StringParts(s: bytes, a: bytes, rest: bytes)
    ensures CheckAof.ReadString(s) == Ok((a, rest)) <==> exists n, t :: ReadsString(s, n, t, a, rest)
  {
    hide CheckAof.ReadString, ReadsLine;
    StringExact(s, a, rest);
    if n, t :| ReadsLine(s, DOLLAR, n, |a|, t) && t == a + CRLF + rest { assert ReadsString(s, n, t, a, rest); }
    if n, t :| ReadsString(s, n, t, a, rest) { assert ReadsLine(s, DOLLAR, n, |a|, t); }
  }

  /** A command for the tool: such a line with a star, and as many strings as it says,
      none for a number below one. */
  ghost predicate ReadsCommand(s: bytes, n: nat, v: int, t: bytes, c: Command, rest: bytes) {
    ReadsLine(s, STAR, n, v, t) && |c| == (if v < 0 then 0 else v) && ReadsStrings(t, c, rest)
  }

  lemma ToolExact(s: bytes, c: Command, rest: bytes)
    ensures CheckAof.ReadCommand(s) == Ok((c, rest)) <==> exists n, v, t :: ReadsCommand(s, n, v, t, c, rest)
  {
    hide CheckAof.ReadLong, CheckAof.ReadStrings, ReadsLine, ReadsStrings;
    if CheckAof.ReadCommand(s) == Ok((c, rest)) {
      var (v, t) := CheckAof.ReadLong(s, STAR).value;
      LongExact(s, STAR, v, t);
      StringsExact(t, v, c, rest);
      var n :| ReadsLine(s, STAR, n, v, t);
      assert ReadsCommand(s, n, v, t, c, rest);
    }
    if n, v, t :| ReadsCommand(s, n, v, t, c, rest) {
      LongExact(s, STAR, v, t);
      StringsExact(t, v, c, rest);
    }
  }
}
