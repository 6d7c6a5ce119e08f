/** Quoting strings and splitting a line of quoted strings (sds.c:406-579), as the
    MONITOR command joins them (replication.c:56-65). */
module SdsRepr {
  import opened Common
  import opened Decimal

  const QUOTE: byte := 34
  const SINGLE: byte := 39
  const BACKSLASH: byte := 92
  const SPACE: byte := 32
  const X: byte := 120

  predicate IsSpace(b: byte) { b == 32 || 9 <= b <= 13 }

  /** isprint in the C locale. */
  predicate IsPrint(b: byte) { 32 <= b <= 126 }

  // ---- quoting --------------------------------------------------------------

  function HexDigit(n: nat): byte
    requires n < 16
  {
    if n < 10 then 48 + n else 87 + n
  }

  /** What sdscatrepr makes of one byte. */
  function Escape(b: byte): (e: bytes)
    ensures |e| > 0
  {
    if b == BACKSLASH || b == QUOTE then [BACKSLASH, b]
    else if b == 10 then [BACKSLASH, 110]
    else if b == 13 then [BACKSLASH, 114]
    else if b == 9 then [BACKSLASH, 116]
    else if b == 7 then [BACKSLASH, 97]
    else if b == 8 then [BACKSLASH, 98]
    else if IsPrint(b) then [b]
    else [BACKSLASH, X, HexDigit(b as int / 16), HexDigit(b as int % 16)]
  }

  function Escaped(s: bytes): bytes {
    if s == [] then [] else Escape(s[0]) + Escaped(s[1..])
  }

  function Repr(s: bytes): bytes {
    [QUOTE] + Escaped(s) + [QUOTE]
  }

  /** The quoted arguments, separated by single spaces. */
  function Joined(args: seq<bytes>): bytes {
    if args == [] then []
    else if |args| == 1 then Repr(args[0])
    else Repr(args[0]) + [SPACE] + Joined(args[1..])
  }

  // ---- splitting ------------------------------------------------------------

  datatype Mode = Bare | Double | Single

  predicate IsHexDigit(b: byte) { 48 <= b <= 57 || 97 <= b <= 102 || 65 <= b <= 70 }

  function HexDigitToInt(b: byte): (n: nat)
    ensures n < 16
  {
    if 48 <= b <= 57 then b - 48 else if 97 <= b <= 102 then b - 87 else if 65 <= b <= 70 then b - 55 else 0
  }

  function Unescape(b: byte): byte {
    if b == 110 then 10 else if b == 114 then 13 else if b == 116 then 9
    else if b == 98 then 8 else if b == 97 then 7 else b
  }

  /** The byte at `i`, or the NUL that ends the line. */
  function C(s: bytes, i: nat): byte {
    if i < |s| then s[i] else 0
  }

  predicate HexEscape(s: bytes) {
    C(s, 0) == BACKSLASH && C(s, 1) == X && IsHexDigit(C(s, 2)) && IsHexDigit(C(s, 3))
  }

  predicate EndsToken(b: byte) { b == 32 || b == 10 || b == 13 || b == 9 || b == 0 }

  /** The rest of a token of a line without NULs: its bytes and what follows it. */
  function Token(s: bytes, mode: Mode, cur: bytes): (r: Option<(bytes, bytes)>)
    requires 0 !in s
    ensures r.Some? ==> |r.value.1| <= |s| && 0 !in r.value.1
    ensures r.Some? && s != [] ==> |r.value.1| < |s|
    decreases |s|
  {
    match mode
    case Double =>
      if HexEscape(s) then Token(s[4..], Double, cur + [HexDigitToInt(s[2]) * 16 + HexDigitToInt(s[3])])
      else if C(s, 0) == BACKSLASH && C(s, 1) != 0 then Token(s[2..], Double, cur + [Unescape(s[1])])
      else if C(s, 0) == QUOTE then
        if C(s, 1) != 0 && !IsSpace(C(s, 1)) then None else Some((cur, s[1..]))
      else if s == [] then None
      else Token(s[1..], Double, cur + [s[0]])
    case Single =>
      if C(s, 0) == BACKSLASH && C(s, 1) == SINGLE then Token(s[2..], Single, cur + [SINGLE])
      else if C(s, 0) == SINGLE then
        if C(s, 1) != 0 && !IsSpace(C(s, 1)) then None else Some((cur, s[1..]))
      else if s == [] then None
      else Token(s[1..], Single, cur + [s[0]])
    case Bare =>
      if s == [] then Some((cur, s))
      else if EndsToken(s[0]) then Some((cur, s[1..]))
      else if s[0] == QUOTE then Token(s[1..], Double, cur)
      else if s[0] == SINGLE then Token(s[1..], Single, cur)
      else Token(s[1..], Bare, cur + [s[0]])
  }

  function SkipSpaces(s: bytes): (r: bytes)
    ensures |r| <= |s| && (0 !in s ==> 0 !in r) && (r != [] ==> !IsSpace(r[0]))
  {
    if s != [] && IsSpace(s[0]) then SkipSpaces(s[1..]) else s
  }

  /** The tokens of a line; None for unbalanced quotes. */
  function Split(line: bytes): (r: Option<seq<bytes>>)
    requires 0 !in line
    decreases |line|
  {
    var s := SkipSpaces(line);
    if s == [] then Some([])
    else match Token(s, Bare, [])
      case None => None
      case Some((token, rest)) =>
        match Split(rest)
        case None => None
        case Some(more) => Some([token] + more)
  }

  // ---- the round trip -------------------------------------------------------

  lemma EscapeNoNul(b: byte)
    ensures 0 !in Escape(b)
  {
  }

  lemma {:induction false} EscapedNoNul(s: bytes)
    ensures 0 !in Escaped(s)
  {
    hide Escape;
    if s != [] {
      EscapeNoNul(s[0]);
      EscapedNoNul(s[1..]);
    }
  }

  lemma {:induction false} JoinedNoNul(args: seq<bytes>)
    ensures 0 !in Joined(args)
  {
    hide Escaped;
    if args != [] {
      EscapedNoNul(args[0]);
      JoinedNoNul(args[1..]);
    }
  }

  lemma HexDigitBack(n: nat)
    requires n < 16
    ensures IsHexDigit(HexDigit(n)) && HexDigitToInt(HexDigit(n)) == n
  {
  }

  /** Inside quotes, the form of a byte is read as the byte. */
  lemma EscapeRead(b: byte, t: bytes, cur: bytes)
    requires 0 !in t
    ensures 0 !in Escape(b) + t
    ensures Token(Escape(b) + t, Double, cur) == Token(t, Double, cur + [b])
  {
    EscapeNoNul(b);
    var s := Escape(b) + t;
    assert s[|Escape(b)|..] == t;
    HexDigitBack(b as int / 16);
    HexDigitBack(b as int % 16);
    hide HexDigit, HexDigitToInt, IsHexDigit;
    if |Escape(b)| == 4 {
      assert s[2] == HexDigit(b as int / 16) && s[3] == HexDigit(b as int % 16);
    }
  }

  lemma {:induction false} EscapedRead(s: bytes, rest: bytes, cur: bytes)
    requires 0 !in rest && (rest == [] || IsSpace(rest[0]))
    ensures 0 !in Escaped(s) + [QUOTE] + rest
    ensures Token(Escaped(s) + [QUOTE] + rest, Double, cur) == Some((cur + s, rest))
    decreases |s|
  {
    EscapedNoNul(s);
    if s == [] {
      var l := Escaped(s) + [QUOTE] + rest;
      assert l == [QUOTE] + rest && l[1..] == rest;
      assert cur + s == cur;
    } else {
      hide Escape, Token;
      EscapedNoNul(s[1..]);
      var t := Escaped(s[1..]) + [QUOTE] + rest;
      assert Escaped(s) + [QUOTE] + rest == Escape(s[0]) + t;
      EscapeRead(s[0], t, cur);
      EscapedRead(s[1..], rest, cur + [s[0]]);
      assert cur + [s[0]] + s[1..] == cur + s;
    }
  }

  /** A quoted argument at the start of a line is its first token. */
  lemma ReprRead(a: bytes, rest: bytes)
    requires 0 !in rest && (rest == [] || IsSpace(rest[0]))
    ensures 0 !in Repr(a) + rest
    ensures Split(Repr(a) + rest) ==
      match Split(rest)
      case None => None
      case Some(more) => Some([a] + more)
  {
    hide Escaped;
    EscapedNoNul(a);
    EscapedRead(a, rest, []);
    var line := Repr(a) + rest;
    assert line[1..] == Escaped(a) + [QUOTE] + rest;
    assert [] + a == a;
    assert SkipSpaces(line) == line;
    hide Split;
    TokenOfRepr(line);
    SplitFirst(line);
  }

  lemma TokenOfRepr(line: bytes)
    requires 0 !in line && line != [] && line[0] == QUOTE
    ensures Token(line, Bare, []) == Token(line[1..], Double, [])
  {
  }

  lemma SplitFirst(line: bytes)
    requires 0 !in line && line != [] && !IsSpace(line[0])
    ensures Split(line) ==
      match Token(line, Bare, [])
      case None => None
      case Some((token, rest)) =>
        match Split(rest)
        case None => None
        case Some(more) => Some([token] + more)
  {
  }

  lemma SplitSpace(s: bytes)
    requires 0 !in s
    ensures Split([SPACE] + s) == Split(s)
  {
    assert ([SPACE] + s)[1..] == s;
    assert SkipSpaces([SPACE] + s) == SkipSpaces(s);
  }

  /**
  Splitting undoes quoting and joining: for every list of byte strings, whatever
  they hold, and whatever blanks follow the line.
  */
  lemma {:induction false} SplitJoined(args: seq<bytes>, blanks: bytes)
    requires forall i :: 0 <= i < |blanks| ==> IsSpace(blanks[i])
    ensures 0 !in Joined(args) + blanks && Split(Joined(args) + blanks) == Some(args)
    decreases |args|
  {
    hide Token, Repr;
    JoinedNoNul(args);
    if args == [] {
      SkipBlanksAll(blanks);
      assert [] + blanks == blanks;
    } else if |args| == 1 {
      SkipBlanksAll(blanks);
      ReprRead(args[0], blanks);
      assert [args[0]] + [] == args;
    } else {
      SplitJoined(args[1..], blanks);
      var tail := Joined(args[1..]) + blanks;
      SplitSpace(tail);
      ReprRead(args[0], [SPACE] + tail);
      assert Joined(args) + blanks == Repr(args[0]) + ([SPACE] + tail);
      assert [args[0]] + args[1..] == args;
    }
  }

  lemma {:induction false} SkipBlanksAll(blanks: bytes)
    requires forall i :: 0 <= i < |blanks| ==> IsSpace(blanks[i])
    ensures SkipSpaces(blanks) == [] && 0 !in blanks && Split(blanks) == Some([])
    decreases |blanks|
  {
    if blanks != [] { SkipBlanksAll(blanks[1..]); }
  }

  /** Different lists are joined to different lines. */
  lemma JoinedInjective(a: seq<bytes>, b: seq<bytes>)
    requires Joined(a) == Joined(b)
    ensures a == b
  {
    hide Joined, Split;
    SplitJoined(a, []);
    SplitJoined(b, []);
    assert Joined(a) + [] == Joined(a) && Joined(b) + [] == Joined(b);
  }

  // ---- the methods ----------------------------------------------------------

  /** sdscatrepr. */
  method CatRepr(dst: bytes, s: bytes) returns (r: bytes)
    ensures r == dst + Repr(s)
  {
    hide Escape, Escaped;
    EscapedNone();
    r := dst + [QUOTE];
    var i := 0;
    assert s[..0] == [];
    while i < |s|
      invariant i <= |s| && r == dst + [QUOTE] + Escaped(s[..i])
    {
      EscapedMore(s[..i], s[i]);
      assert s[..i + 1] == s[..i] + [s[i]];
      var e := CatByte(s[i]);
      assert r + e == dst + [QUOTE] + (Escaped(s[..i]) + e);
      r := r + e;
      i := i + 1;
    }
    assert s[..i] == s;
    r := r + [QUOTE];
  }

  /** The switch of sdscatrepr (sds.c:409-425). */
  method CatByte(b: byte) returns (e: bytes)
    ensures e == Escape(b)
  {
    if b == BACKSLASH || b == QUOTE {
      e := [BACKSLASH, b];
    } else if b == 10 {
      e := [BACKSLASH, 110];
    } else if b == 13 {
      e := [BACKSLASH, 114];
    } else if b == 9 {
      e := [BACKSLASH, 116];
    } else if b == 7 {
      e := [BACKSLASH, 97];
    } else if b == 8 {
      e := [BACKSLASH, 98];
    } else if IsPrint(b) {
      e := [b];
    } else {
      e := [BACKSLASH, X, HexDigit(b as int / 16), HexDigit(b as int % 16)];
    }
  }

  lemma EscapedNone()
    ensures Escaped([]) == []
  {
  }

  lemma {:induction false} EscapedMore(s: bytes, b: byte)
    ensures Escaped(s + [b]) == Escaped(s) + Escape(b)
    decreases |s|
  {
    hide Escape;
    if s == [] {
      assert (s + [b])[1..] == [];
    } else {
      assert (s + [b])[1..] == s[1..] + [b];
      EscapedMore(s[1..], b);
    }
  }

  /** The loop of replicationFeedMonitors over the arguments. */
  method JoinReprs(argv: seq<bytes>) returns (r: bytes)
    ensures r == Joined(argv)
  {
    hide Repr;
    r := [];
    assert argv[0..] == argv;
    for j := 0 to |argv|
      invariant Joined(argv) == r + Joined(argv[j..])
    {
      assert argv[j..][1..] == argv[j + 1..];
      ghost var was := r;
      r := CatRepr(r, argv[j]);
      if j != |argv| - 1 {
        r := r + [SPACE];
        assert was + (Repr(argv[j]) + [SPACE] + Joined(argv[j + 1..])) == r + Joined(argv[j + 1..]);
      } else {
        assert r + Joined([]) == r;
      }
    }
    assert argv[|argv|..] == [] && r + [] == r;
  }

  /** sdssplitargs on a C string. */
  method SplitArgs(text: bytes) returns (vector: Option<seq<bytes>>)
    ensures 0 !in CString(text) && vector == Split(CString(text))
  {
    hide Token, Split;
    var line := CString(text);
    CStringNoNul(text);
    var p, argv := 0, [];
    assert line[0..] == line && Prefixed([], Split(line)) == Split(line) by { PrefixedNone(Split(line)); }
    while true
      invariant p <= |line| && 0 !in line[p..]
      invariant Prefixed(argv, Split(line[p..])) == Split(line)
      decreases |line| - p
    {
      p := SkipFrom(line, p);
      if p == |line| {
        assert line[p..] == [];
        SplitEmpty();
        assert argv + [] == argv;
        return Some(argv);
      }
      SplitFirst(line[p..]);
      var r := TokenFrom(line, p);
      if r == None {
        return None;
      }
      var (token, q) := r.value;
      PrefixedMore(argv, token, Split(line[q..]));
      argv := argv + [token];
      p := q;
    }
  }

  ghost function Prefixed(argv: seq<bytes>, r: Option<seq<bytes>>): Option<seq<bytes>> {
    match r
    case None => None
    case Some(more) => Some(argv + more)
  }

  lemma PrefixedNone(r: Option<seq<bytes>>)
    ensures Prefixed([], r) == r
  {
    if r.Some? { assert [] + r.value == r.value; }
  }

  lemma PrefixedMore(argv: seq<bytes>, token: bytes, r: Option<seq<bytes>>)
    ensures Prefixed(argv, Prefixed([token], r)) == Prefixed(argv + [token], r)
  {
    if r.Some? { assert argv + ([token] + r.value) == argv + [token] + r.value; }
  }

  lemma SplitEmpty()
    ensures Split([]) == Some([])
  {
  }

  lemma CStringNoNul(s: bytes)
    ensures 0 !in CString(s)
  {
  }

  /** Skipping blanks. */
  method SkipFrom(line: bytes, start: nat) returns (p: nat)
    requires start <= |line| && 0 !in line[start..]
    ensures start <= p <= |line| && 0 !in line[p..] && (p < |line| ==> !IsSpace(line[p]))
    ensures Split(line[p..]) == Split(line[start..])
  {
    hide Token, Split;
    p := start;
    while p < |line| && IsSpace(line[p])
      invariant start <= p <= |line| && 0 !in line[p..]
      invariant Split(line[p..]) == Split(line[start..])
    {
      SplitBlank(line[p..]);
      assert line[p..][1..] == line[p + 1..];
      p := p + 1;
    }
  }

  lemma SplitBlank(s: bytes)
    requires 0 !in s && s != [] && IsSpace(s[0])
    ensures Split(s) == Split(s[1..])
  {
    hide Token;
    assert SkipSpaces(s) == SkipSpaces(s[1..]);
  }

  /** One token: its bytes and where it ends. */
  method TokenFrom(line: bytes, start: nat) returns (r: Option<(bytes, nat)>)
    requires start < |line| && 0 !in line[start..]
    ensures r == None ==> Token(line[start..], Bare, []) == None
    ensures r.Some? ==> start < r.value.1 <= |line| && 0 !in line[r.value.1..]
    ensures r.Some? ==> Token(line[start..], Bare, []) == Some((r.value.0, line[r.value.1..]))
  {
    var p, inq, insq, current := start, false, false, [];
    while true
      invariant start <= p <= |line| && 0 !in line[p..] && !(inq && insq)
      invariant Token(line[p..], if inq then Double else if insq then Single else Bare, current) ==
                Token(line[start..], Bare, [])
      decreases |line| - p
    {
      ghost var s := line[p..];
      if inq {
        var next := InDouble(line, p, current);
        if next.Done? {
          return next.result;
        }
        p, current := next.p, next.current;
      } else if insq {
        var next := InSingle(line, p, current);
        if next.Done? {
          return next.result;
        }
        p, current := next.p, next.current;
      } else {
        if p == |line| {
          return Some((current, p));
        }
        assert s[1..] == line[p + 1..];
        if EndsToken(line[p]) {
          return Some((current, p + 1));
        } else if line[p] == QUOTE {
          inq := true;
        } else if line[p] == SINGLE {
          insq := true;
        } else {
          current := current + [line[p]];
        }
        p := p + 1;
      }
    }
  }

  /** A step inside quotes: the token has ended, or it goes on. */
  datatype Turn = Done(result: Option<(bytes, nat)>) | More(p: nat, current: bytes)

  ghost predicate TurnIs(line: bytes, p: nat, mode: Mode, current: bytes, next: Turn)
    requires p <= |line| && 0 !in line[p..]
  {
    match next
    case Done(None) => Token(line[p..], mode, current) == None
    case Done(Some((token, q))) =>
      p < q <= |line| && Token(line[p..], mode, current) == Some((token, line[q..]))
    case More(q, cur) =>
      p < q <= |line| && 0 !in line[q..] && Token(line[p..], mode, current) == Token(line[q..], mode, cur)
  }

  /** Inside double quotes (sds.c:491-525). */
  method InDouble(line: bytes, p: nat, current: bytes) returns (next: Turn)
    requires p <= |line| && 0 !in line[p..]
    ensures TurnIs(line, p, Double, current, next)
  {
    ghost var s := line[p..];
    assert |s| >= 1 ==> s[1..] == line[p + 1..];
    assert |s| >= 2 ==> s[2..] == line[p + 2..];
    assert |s| >= 4 ==> s[4..] == line[p + 4..];
    assert C(line, p) == C(s, 0) && C(line, p + 1) == C(s, 1) && C(line, p + 2) == C(s, 2) && C(line, p + 3) == C(s, 3);
    if C(line, p) == BACKSLASH && C(line, p + 1) == X && IsHexDigit(C(line, p + 2)) && IsHexDigit(C(line, p + 3)) {
      var b := HexDigitToInt(line[p + 2]) * 16 + HexDigitToInt(line[p + 3]);
      next := More(p + 4, current + [b]);
    } else if C(line, p) == BACKSLASH && C(line, p + 1) != 0 {
      next := More(p + 2, current + [Unescape(line[p + 1])]);
    } else if C(line, p) == QUOTE {
      if C(line, p + 1) != 0 && !IsSpace(C(line, p + 1)) {
        return Done(None);
      }
      next := Done(Some((current, p + 1)));
    } else if p == |line| {
      next := Done(None);
    } else {
      next := More(p + 1, current + [line[p]]);
    }
  }

  /** Inside single quotes (sds.c:526-540). */
  method InSingle(line: bytes, p: nat, current: bytes) returns (next: Turn)
    requires p <= |line| && 0 !in line[p..]
    ensures TurnIs(line, p, Single, current, next)
  {
    ghost var s := line[p..];
    assert |s| >= 1 ==> s[1..] == line[p + 1..];
    assert |s| >= 2 ==> s[2..] == line[p + 2..];
    assert C(line, p) == C(s, 0) && C(line, p + 1) == C(s, 1);
    if C(line, p) == BACKSLASH && C(line, p + 1) == SINGLE {
      next := More(p + 2, current + [SINGLE]);
    } else if C(line, p) == SINGLE {
      if C(line, p + 1) != 0 && !IsSpace(C(line, p + 1)) {
        return Done(None);
      }
      next := Done(Some((current, p + 1)));
    } else if p == |line| {
      next := Done(None);
    } else {
      next := More(p + 1, current + [line[p]]);
    }
  }
}
