/**
redis-check-aof.c: reading a log command by command to find where it stops being
whole. A negative length of an argument, for which the C code has no defined
behaviour, ends the reading here.
*/
module CheckAof {
  import opened Common
  import opened Decimal
  import opened Resp
  import opened AofCodec
  import opened AofReplay

  /** A failed read; `reported` if a message was written for it. At the end of the
      file fgets fails without one. */
  datatype Failure = Failure(reported: bool)

  /** readLong. */
  function ReadLong(s: bytes, prefix: byte): (r: Result<(int, bytes), Failure>)
    ensures r.Ok? ==> |r.value.1| < |s| && IsLongLong(r.value.0)
  {
    if s == [] then Err(Failure(false))
    else
      var n := LineLength(s, FGETS_MAX);
      var (v, rest) := Strtoll(CString(s[1..n]));
      if s[0] != prefix then Err(Failure(true))
      else if |rest| < 2 || rest[..2] != CRLF then Err(Failure(true))
      else Ok((v, s[n..]))
  }

  /** readString. */
  function ReadString(s: bytes): (r: Result<(bytes, bytes), Failure>)
    ensures r.Ok? ==> |r.value.1| < |s|
  {
    match ReadLong(s, DOLLAR)
    case Err(e) => Err(e)
    case Ok((len, s1)) =>
      if len < 0 || len + 2 > |s1| then Err(Failure(true))
      else if s1[len..len + 2] != CRLF then Err(Failure(true))
      else Ok((s1[..len], s1[len + 2..]))
  }

  function ReadStrings(s: bytes, argc: int): (r: Result<(seq<bytes>, bytes), Failure>)
    ensures r.Ok? ==> |r.value.1| <= |s| && |r.value.0| == if argc < 0 then 0 else argc
    decreases argc
  {
    if argc <= 0 then Ok(([], s))
    else match ReadString(s)
      case Err(e) => Err(e)
      case Ok((a, s1)) =>
        match ReadStrings(s1, argc - 1)
        case Err(e) => Err(e)
        case Ok((rest, s2)) => Ok(([a] + rest, s2))
  }

  /** One command. A count that is not positive stands for no arguments. */
  function ReadCommand(s: bytes): (r: Result<(Command, bytes), Failure>)
    ensures r.Ok? ==> |r.value.1| < |s|
  {
    match ReadLong(s, STAR)
    case Err(e) => Err(e)
    case Ok((argc, s1)) => ReadStrings(s1, argc)
  }

  /** strcasecmp compares up to the first NUL. */
  predicate Says(c: Command, name: bytes) {
    c != [] && Upper(CString(c[0])) == name
  }

  /** The state after `k` commands: how far the file has been read, and whether a
      MULTI is open. None once a command cannot be read, opens a second MULTI or
      closes none. */
  function After(s: bytes, k: nat): (r: Option<(nat, bool)>)
    ensures r.Some? ==> r.value.0 <= |s|
  {
    if k == 0 then Some((0, false))
    else match After(s, k - 1)
      case None => None
      case Some((p, multi)) => Turn(s, p, multi)
  }

  function Turn(s: bytes, p: nat, multi: bool): (r: Option<(nat, bool)>)
    requires p <= |s|
    ensures r.Some? ==> p < r.value.0 <= |s|
  {
    match ReadCommand(s[p..])
    case Err(_) => None
    case Ok((c, rest)) =>
      if Says(c, MULTI) then if multi then None else Some((|s| - |rest|, true))
      else if Says(c, EXEC) then if !multi then None else Some((|s| - |rest|, false))
      else Some((|s| - |rest|, multi))
  }

  /** A position where every command before it is whole and no MULTI is open. */
  ghost predicate Sound(s: bytes, p: nat) {
    exists k: nat :: After(s, k) == Some((p, false))
  }

  /** The file ends where a line should begin, and no MULTI is open there: at the end of
      a command, or behind the count or an argument of one that goes on. The name of the
      command has been looked at if it was there. */
  ghost predicate EndsQuietly(t: bytes, multi: bool) {
    || (t == [] && !multi)
    || (ReadLong(t, STAR).Ok? && exists n: nat :: QuietBehind(ReadLong(t, STAR).value, n, multi))
  }

  /** Behind `n` arguments, fewer than announced. */
  ghost predicate QuietBehind(count: (int, bytes), n: nat, multi: bool) {
    var r := ReadStrings(count.1, n);
    && n < count.0 && r.Ok? && r.value.1 == []
    && if Says(r.value.0, EXEC) then multi else !multi && !Says(r.value.0, MULTI)
  }

  /** The reading of the file ends like that. */
  ghost predicate Quiet(s: bytes) {
    exists k: nat :: After(s, k).Some? && EndsQuietly(s[After(s, k).value.0..], After(s, k).value.1)
  }

  // ---- process ----------------------------------------------------------------

  type Reading = Result<(seq<bytes>, bytes), Failure>

  ghost function Prepended(args: seq<bytes>, r: Reading): Reading {
    match r
    case Err(e) => Err(e)
    case Ok((more, rest)) => Ok((args + more, rest))
  }

  lemma PrependedMore(args: seq<bytes>, a: bytes, r: Result<(seq<bytes>, bytes), Failure>)
    ensures Prepended(args, Prepended([a], r)) == Prepended(args + [a], r)
    ensures Prepended([], r) == r
  {
    if r.Ok? {
      assert args + ([a] + r.value.0) == args + [a] + r.value.0;
      assert [] + r.value.0 == r.value.0;
    }
  }

  /** The body of the loop of process: one command, with the name looked at as soon
      as it has been read. */
  method ReadOne(s: bytes, at: nat, multi: int) returns (next: Option<nat>, multi': int, error: bool)
    requires at <= |s| && 0 <= multi <= 1
    ensures next == None <==> Turn(s, at, multi == 1) == None
    ensures next.Some? ==> Turn(s, at, multi == 1) == Some((next.value, multi' == 1)) && 0 <= multi' <= 1
    ensures at == |s| ==> error == (multi == 1)
    ensures next == None ==> (error <==> !EndsQuietly(s[at..], multi == 1))
  {
    hide ReadLong, ReadString, Upper, CString, EndsQuietly;
    multi' := multi;
    EndOfFile(s, STAR);
    var count := ReadLong(s[at..], STAR);
    if count.Err? {
      NoCount(s[at..], multi == 1);
      return None, multi', count.error.reported || multi == 1;
    }
    var (argc, s1) := count.value;
    var q, i: int := |s| - |s1|, 0;
    ghost var args: seq<bytes> := [];
    RestOfLong(s[at..], STAR);
    assert s1 == s[q..];
    PrependedMore([], [], ReadStrings(s1, argc));
    while i < argc
      invariant 0 <= i && (i <= argc || i == 0) && |args| == i && at < q <= |s|
      invariant Prepended(args, ReadStrings(s[q..], argc - i)) == ReadStrings(s1, argc)
      invariant ReadStrings(s1, i) == Ok((args, s[q..]))
      invariant i == 0 ==> multi' == multi && s[q..] == s1
      invariant i > 0 ==> multi' == if Says(args, MULTI) then 1 else if Says(args, EXEC) then 0 else multi
      invariant i > 0 && Says(args, MULTI) ==> multi == 0
      invariant i > 0 && !Says(args, MULTI) && Says(args, EXEC) ==> multi == 1
      decreases argc - i
    {
      var r := ReadString(s[q..]);
      if r.Err? {
        NoString(s[at..], i, multi == 1);
        return None, multi', r.error.reported || multi' == 1;
      }
      var (str, rest) := r.value;
      PrependedMore(args, str, ReadStrings(rest, argc - i - 1));
      OneMore(s1, i);
      if i == 0 {
        Begins(s1, argc, str);
        BadName(s[at..], str, multi == 1);
        if Says([str], MULTI) {
          multi' := multi' + 1;
          if multi' != 1 {
            return None, multi', true;
          }
        } else if Says([str], EXEC) {
          multi' := multi' - 1;
          if multi' != 0 {
            return None, multi', true;
          }
        }
      }
      RestOfString(s[q..]);
      q := |s| - |rest|;
      assert rest == s[q..];
      args := args + [str];
      i := i + 1;
    }
    next := Some(q);
    error := false;
  }

  /** A message is written for a count that cannot be read, unless the file ends. */
  lemma NoCount(t: bytes, multi: bool)
    requires ReadLong(t, STAR).Err?
    ensures EndsQuietly(t, multi) <==> !ReadLong(t, STAR).error.reported && !multi
  {
    hide LineLength, Strtoll, CString;
  }

  lemma {:induction false} OneMore(s: bytes, n: nat)
    requires ReadStrings(s, n).Ok? && ReadString(ReadStrings(s, n).value.1).Ok?
    ensures var (args, t) := ReadStrings(s, n).value; var (a, rest) := ReadString(t).value;
      ReadStrings(s, n + 1) == Ok((args + [a], rest))
    decreases n
  {
    hide ReadString;
    var (a, s1) := ReadString(s).value;
    if n == 0 {
      assert ReadStrings(s1, 0) == Ok(([], s1));
      assert [a] + [] == [] + [a];
    } else {
      OneMore(s1, n - 1);
      var (args, t) := ReadStrings(s1, n - 1).value;
      assert [a] + args + [ReadString(t).value.0] == [a] + (args + [ReadString(t).value.0]);
    }
  }

  lemma {:induction false} FewerRead(s: bytes, n: nat, m: nat)
    requires n < m && ReadStrings(s, m).Ok?
    ensures ReadStrings(s, n).Ok? && ReadString(ReadStrings(s, n).value.1).Ok?
    decreases n
  {
    hide ReadString;
    if n > 0 { FewerRead(ReadString(s).value.1, n - 1, m - 1); }
  }

  /** At the end of the file no string can be read, and no message is written for it. */
  lemma StringAtEnd(s: bytes)
    ensures s == [] ==> ReadString(s).Err?
    ensures ReadString(s).Err? ==> (ReadString(s).error.reported <==> s != [])
  {
    hide LineLength, Strtoll, CString;
  }

  /** An argument that cannot be read: a message is written unless the file ends there
      and no MULTI is open. */
  lemma NoString(t: bytes, i: nat, multi: bool)
    requires ReadLong(t, STAR).Ok? && i < ReadLong(t, STAR).value.0
    requires var s1 := ReadLong(t, STAR).value.1;
      ReadStrings(s1, i).Ok? && ReadString(ReadStrings(s1, i).value.1).Err?
    ensures var r := ReadStrings(ReadLong(t, STAR).value.1, i).value;
      EndsQuietly(t, multi) <==>
        && !ReadString(r.1).error.reported
        && if Says(r.0, EXEC) then multi else !multi && !Says(r.0, MULTI)
  {
    hide ReadLong, ReadString, ReadStrings, Says;
    var count := ReadLong(t, STAR).value;
    var r := ReadStrings(count.1, i).value;
    StringAtEnd(r.1);
    EmptyNoLong(t);
    if n: nat :| QuietBehind(count, n, multi) {
      if n < i {
        FewerRead(count.1, n, i);
        StringAtEnd([]);
      } else if n > i {
        FewerRead(count.1, i, n);
      }
    }
    if r.1 == [] && (if Says(r.0, EXEC) then multi else !multi && !Says(r.0, MULTI)) {
      assert QuietBehind(count, i, multi);
    }
  }

  lemma EmptyNoLong(t: bytes)
    ensures t == [] ==> ReadLong(t, STAR).Err?
  {
    hide LineLength, Strtoll, CString;
  }

  /** A second MULTI, or an EXEC without one, is never the quiet end. */
  lemma BadName(t: bytes, name: bytes, multi: bool)
    requires ReadLong(t, STAR).Ok? && ReadString(ReadLong(t, STAR).value.1).Ok?
    requires name == ReadString(ReadLong(t, STAR).value.1).value.0
    ensures (Says([name], MULTI) && multi) || (Says([name], EXEC) && !multi) ==> !EndsQuietly(t, multi)
  {
    hide ReadLong, ReadString, ReadStrings, Upper, CString;
    var count := ReadLong(t, STAR).value;
    EmptyNoLong(t);
    StringAtEnd(count.1);
    if n: nat :| QuietBehind(count, n, multi) {
      FirstString(count.1, n);
    }
  }

  lemma FirstString(s: bytes, n: nat)
    requires ReadStrings(s, n).Ok? && ReadString(s).Ok?
    ensures n == 0 ==> ReadStrings(s, n) == Ok(([], s))
    ensures n > 0 ==> var args := ReadStrings(s, n).value.0; args != [] && args[0] == ReadString(s).value.0
  {
    hide ReadString;
  }

  /** A quiet end is an end. */
  lemma QuietStops(s: bytes, p: nat, multi: bool)
    requires p <= |s| && EndsQuietly(s[p..], multi)
    ensures Turn(s, p, multi) == None
  {
    hide ReadLong, ReadString, ReadStrings, Says;
    var t := s[p..];
    EmptyNoLong(t);
    if ReadLong(t, STAR).Ok? {
      var count := ReadLong(t, STAR).value;
      var n: nat :| QuietBehind(count, n, multi);
      if ReadStrings(count.1, count.0).Ok? {
        FewerRead(count.1, n, count.0);
        StringAtEnd([]);
      }
    }
  }

  /** Where the reading stops decides whether the file ends quietly. */
  lemma QuietWhere(s: bytes, k: nat)
    requires After(s, k).Some? && After(s, k + 1) == None
    ensures Quiet(s) <==> EndsQuietly(s[After(s, k).value.0..], After(s, k).value.1)
  {
    hide EndsQuietly, Turn;
    if Quiet(s) {
      var j: nat :| After(s, j).Some? && EndsQuietly(s[After(s, j).value.0..], After(s, j).value.1);
      QuietStops(s, After(s, j).value.0, After(s, j).value.1);
      assert After(s, j + 1) == None;
      if j < k { NoneStays(s, j + 1, k); }
      if j > k { NoneStays(s, k + 1, j); }
    }
  }

  /** The first string that is read is the first argument. */
  lemma Begins(s: bytes, argc: int, str: bytes)
    requires argc > 0 && ReadString(s).Ok? && ReadString(s).value.0 == str
    ensures ReadStrings(s, argc).Ok? ==> ReadStrings(s, argc).value.0 != [] && ReadStrings(s, argc).value.0[0] == str
  {
    hide ReadString;
  }

  lemma RestOfLong(s: bytes, prefix: byte)
    requires ReadLong(s, prefix).Ok?
    ensures var rest := ReadLong(s, prefix).value.1; |rest| < |s| && rest == s[|s| - |rest|..]
  {
    hide Strtoll, LineLength;
  }

  lemma RestOfString(s: bytes)
    requires ReadString(s).Ok?
    ensures var rest := ReadString(s).value.1; |rest| < |s| && rest == s[|s| - |rest|..]
  {
    hide ReadLong;
    RestOfLong(s, DOLLAR);
  }

  /** process: the position up to which the file is sound, and whether a message
      was written. */
  method Process(s: bytes) returns (pos: nat, error: bool)
    ensures Sound(s, pos) && forall p: nat :: Sound(s, p) ==> p <= pos
    ensures pos == |s| ==> !error
    ensures error <==> !Quiet(s)
  {
    hide Turn, EndsQuietly;
    var at, multi: int := 0, 0;
    pos := 0;
    ghost var k: nat, m: nat := 0, 0;
    while true
      invariant at <= |s| && 0 <= multi <= 1
      invariant After(s, k) == Some((at, multi == 1))
      invariant multi == 1 ==> m <= k && After(s, m) == Some((pos, false)) && pos < at
      invariant multi == 1 ==> forall j :: m < j <= k ==> After(s, j).Some? && After(s, j).value.1
      decreases |s| - at
    {
      if multi == 0 {
        pos, m := at, k;
      }
      var next, open;
      next, open, error := ReadOne(s, at, multi);
      assert After(s, k + 1) == Turn(s, at, multi == 1);
      if next == None {
        Longest(s, k, m, pos);
        QuietWhere(s, k);
        return;
      }
      at, multi := next.value, open;
      k := k + 1;
    }
  }

  lemma EndOfFile(s: bytes, prefix: byte)
    ensures ReadLong(s[|s|..], prefix) == Err(Failure(false))
  {
  }

  lemma Stops(s: bytes, k: nat, at: nat, multi: bool)
    requires After(s, k) == Some((at, multi)) && ReadCommand(s[at..]).Err?
    ensures After(s, k + 1) == None
  {
  }

  lemma {:induction false} NoneStays(s: bytes, k: nat, j: nat)
    requires After(s, k) == None && k <= j
    ensures After(s, j) == None
    decreases j
  {
    hide Turn;
    if k < j { NoneStays(s, k, j - 1); }
  }

  lemma {:induction false} Rises(s: bytes, j: nat, k: nat)
    requires j <= k && After(s, k).Some?
    ensures After(s, j).Some? && After(s, j).value.0 <= After(s, k).value.0
    decreases k - j
  {
    hide Turn;
    if j < k { Rises(s, j, k - 1); }
  }

  /** When the reading stops after `k` commands, the last position without an open
      MULTI is the furthest sound one. */
  lemma Longest(s: bytes, k: nat, m: nat, pos: nat)
    requires After(s, k + 1) == None && m <= k && After(s, m) == Some((pos, false))
    requires forall j :: m < j <= k ==> After(s, j).Some? && After(s, j).value.1
    ensures Sound(s, pos) && forall p: nat :: Sound(s, p) ==> p <= pos
  {
    hide After;
    forall p: nat | Sound(s, p) ensures p <= pos {
      var j: nat :| After(s, j) == Some((p, false));
      if j > k { NoneStays(s, k + 1, j); }
      assert j <= m;
      Rises(s, j, m);
    }
  }

  // ---- truncating the file ------------------------------------------------------

  /** What is read is read again when the file goes on, and when it ends right
      behind. */
  lemma LongStays(s: bytes, t: bytes, prefix: byte)
    requires ReadLong(s, prefix).Ok?
    ensures var (v, rest) := ReadLong(s, prefix).value; ReadLong(s + t, prefix) == Ok((v, rest + t))
  {
    hide CString, Strtoll;
    var n := LineLength(s, FGETS_MAX);
    LineEnds(s, FGETS_MAX);
    CRLFInside(s, n);
    LineSame(s, t, FGETS_MAX);
    assert (s + t)[1..n] == s[1..n] && (s + t)[n..] == s[n..] + t;
  }

  /** A line that is read ends with a line feed. */
  lemma CRLFInside(s: bytes, n: nat)
    requires 1 <= n <= |s|
    requires var rest := Strtoll(CString(s[1..n])).1; |rest| >= 2 && rest[..2] == CRLF
    ensures exists i :: 0 <= i < n && s[i] == LF
  {
    var t := s[1..n];
    var u, rest := CString(t), Strtoll(CString(t)).1;
    StrtollSuffix(u);
    assert rest[1] == rest[..2][1] == LF;
    assert u[|u| - |rest| + 1] == LF;
    assert t[|u| - |rest| + 1] == LF;
    assert s[|u| - |rest| + 2] == LF;
  }

  lemma StrtollSuffix(s: bytes)
    ensures var rest := Strtoll(s).1; |rest| <= |s| && rest == s[|s| - |rest|..]
  {
    SkipBlanksSuffix(s);
    hide SkipBlanks, DigitPrefix, Decimal.Value;
  }

  lemma {:induction false} SkipBlanksSuffix(s: bytes)
    ensures var t := SkipBlanks(s); |t| <= |s| && t == s[|s| - |t|..]
  {
    if s != [] && (s[0] == 32 || 9 <= s[0] <= 13) { SkipBlanksSuffix(s[1..]); }
  }

  lemma {:induction false} LineEnds(s: bytes, max: nat)
    ensures forall i :: 0 <= i < LineLength(s, max) - 1 ==> s[i] != LF
    decreases max
  {
    if s != [] && max > 0 && s[0] != LF { LineEnds(s[1..], max - 1); }
  }

  /** A line with a line feed in it does not depend on what follows. */
  lemma {:induction false} LineSame(s: bytes, t: bytes, max: nat)
    requires exists i :: 0 <= i < LineLength(s, max) && s[i] == LF
    ensures LineLength(s + t, max) == LineLength(s, max)
    decreases max
  {
    if s != [] && max > 0 && s[0] != LF {
      var i :| 0 <= i < LineLength(s, max) && s[i] == LF;
      assert s[1..][i - 1] == LF;
      assert (s + t)[1..] == s[1..] + t;
      LineSame(s[1..], t, max - 1);
    }
  }

  lemma {:induction false} StringStays(s: bytes, t: bytes)
    requires ReadString(s).Ok?
    ensures var (a, rest) := ReadString(s).value; ReadString(s + t) == Ok((a, rest + t))
  {
    hide ReadLong;
    LongStays(s, t, DOLLAR);
    var (len, s1) := ReadLong(s, DOLLAR).value;
    assert (s1 + t)[len..len + 2] == s1[len..len + 2] && (s1 + t)[..len] == s1[..len];
    assert (s1 + t)[len + 2..] == s1[len + 2..] + t;
  }

  lemma {:induction false} StringsStay(s: bytes, t: bytes, argc: int)
    requires ReadStrings(s, argc).Ok?
    ensures var (args, rest) := ReadStrings(s, argc).value; ReadStrings(s + t, argc) == Ok((args, rest + t))
    decreases argc
  {
    hide ReadString;
    if argc > 0 {
      StringStays(s, t);
      var (a, s1) := ReadString(s).value;
      StringsStay(s1, t, argc - 1);
    }
  }

  lemma {:induction false} CommandStays(s: bytes, t: bytes)
    requires ReadCommand(s).Ok?
    ensures var (c, rest) := ReadCommand(s).value; ReadCommand(s + t) == Ok((c, rest + t))
  {
    hide ReadLong, ReadStrings;
    LongStays(s, t, STAR);
    var (argc, s1) := ReadLong(s, STAR).value;
    StringsStay(s1, t, argc);
  }

  lemma {:induction false} LineCut(s: bytes, t: bytes, max: nat)
    requires LineLength(s + t, max) <= |s|
    ensures LineLength(s, max) == LineLength(s + t, max)
    decreases max
  {
    if s != [] && max > 0 && s[0] != LF {
      assert (s + t)[1..] == s[1..] + t;
      LineCut(s[1..], t, max - 1);
    }
  }

  lemma {:induction false} LongCut(s: bytes, t: bytes, prefix: byte)
    requires ReadLong(s + t, prefix).Ok? && |ReadLong(s + t, prefix).value.1| >= |t|
    ensures ReadLong(s, prefix).Ok?
    ensures ReadLong(s + t, prefix) == Ok((ReadLong(s, prefix).value.0, ReadLong(s, prefix).value.1 + t))
  {
    hide CString, Strtoll;
    var n := LineLength(s + t, FGETS_MAX);
    LineCut(s, t, FGETS_MAX);
    assert (s + t)[1..n] == s[1..n] && (s + t)[n..] == s[n..] + t;
  }

  lemma {:induction false} StringCut(s: bytes, t: bytes)
    requires ReadString(s + t).Ok? && |ReadString(s + t).value.1| >= |t|
    ensures ReadString(s).Ok?
    ensures ReadString(s + t) == Ok((ReadString(s).value.0, ReadString(s).value.1 + t))
  {
    hide ReadLong;
    LongCut(s, t, DOLLAR);
    var (len, s1) := ReadLong(s, DOLLAR).value;
    assert (s1 + t)[len..len + 2] == s1[len..len + 2] && (s1 + t)[..len] == s1[..len];
    assert (s1 + t)[len + 2..] == s1[len + 2..] + t;
  }

  lemma {:induction false} StringsCut(s: bytes, t: bytes, argc: int)
    requires ReadStrings(s + t, argc).Ok? && |ReadStrings(s + t, argc).value.1| >= |t|
    ensures ReadStrings(s, argc).Ok?
    ensures ReadStrings(s + t, argc) == Ok((ReadStrings(s, argc).value.0, ReadStrings(s, argc).value.1 + t))
    decreases argc
  {
    hide ReadString;
    if argc > 0 {
      StringCut(s, t);
      StringsCut(ReadString(s).value.1, t, argc - 1);
    }
  }

  lemma CommandCut(s: bytes, t: bytes)
    requires ReadCommand(s + t).Ok? && |ReadCommand(s + t).value.1| >= |t|
    ensures ReadCommand(s).Ok?
    ensures ReadCommand(s + t) == Ok((ReadCommand(s).value.0, ReadCommand(s).value.1 + t))
  {
    hide ReadLong, ReadStrings;
    LongCut(s, t, STAR);
    StringsCut(ReadLong(s, STAR).value.1, t, ReadLong(s, STAR).value.0);
  }

  /** A file reads as its beginning does, as far as the beginning goes. */
  lemma {:induction false} AfterCut(s: bytes, t: bytes, k: nat)
    ensures After(s, k).Some? ==> After(s + t, k) == After(s, k)
    ensures After(s + t, k).Some? && After(s + t, k).value.0 <= |s| ==> After(s, k) == After(s + t, k)
    decreases k
  {
    hide ReadCommand, Says;
    if k > 0 {
      AfterCut(s, t, k - 1);
      if After(s + t, k - 1).Some? && After(s + t, k - 1).value.0 <= |s| {
        var p := After(s + t, k - 1).value.0;
        assert (s + t)[p..] == s[p..] + t;
        if ReadCommand(s[p..]).Ok? { CommandStays(s[p..], t); }
        if ReadCommand(s[p..] + t).Ok? && |ReadCommand(s[p..] + t).value.1| >= |t| { CommandCut(s[p..], t); }
      }
    }
  }

  /** The sound positions of a file cut off at any point are those of the file
      that lie before the cut. */
  lemma SoundCut(s: bytes, cut: nat, p: nat)
    requires cut <= |s|
    ensures Sound(s[..cut], p) <==> Sound(s, p) && p <= cut
  {
    hide After;
    var t, x := s[..cut], s[cut..];
    assert t + x == s;
    if Sound(t, p) {
      var k: nat :| After(t, k) == Some((p, false));
      AfterCut(t, x, k);
    }
    if Sound(s, p) && p <= cut {
      var k: nat :| After(s, k) == Some((p, false));
      AfterCut(t, x, k);
    }
  }

  /** The repair: after the file has been cut off where it stops being sound, the
      tool finds the whole of it sound, and has nothing to say. */
  method Repair(s: bytes) returns (fixed: bytes, again: nat, error: bool)
    ensures fixed <= s && Sound(fixed, |fixed|)
    ensures forall p: nat :: Sound(s, p) ==> p <= |fixed|
    ensures again == |fixed| && !error
  {
    hide Sound;
    var pos, _ := Process(s);
    SoundInside(s, pos);
    fixed := s[..pos];
    SoundCut(s, pos, pos);
    again, error := Process(fixed);
    SoundInside(fixed, again);
  }

  lemma SoundInside(s: bytes, p: nat)
    requires Sound(s, p)
    ensures p <= |s|
  {
  }

  // ---- crashes, and loading what was repaired --------------------------------------

  lemma LineRead(prefix: byte, n: nat, rest: bytes)
    requires ShortNumber(n) && n <= LLONG_MAX && prefix != LF
    ensures ReadLong(Line(prefix, n) + rest, prefix) == Ok((n, rest))
  {
    LineDecoded(prefix, n, rest);
    var line, d := Line(prefix, n), Digits(n);
    var s := line + rest;
    assert s[1..|line|] == d + CRLF;
    ValueOfDigits(n);
    StrtollLine(d);
    hide Line, LineLength, Digits, Strtoll, CString;
  }

  lemma StrtollLine(d: bytes)
    requires d != [] && AllDigits(d) && Decimal.Value(d) <= LLONG_MAX
    ensures Strtoll(CString(d + CRLF)) == (Decimal.Value(d), CRLF)
  {
    hide Decimal.Value;
    NoNul(d + CRLF);
    assert IsDigit(d[0]);
    DigitPrefixOf(d, CRLF);
    assert (d + CRLF)[|d|..] == CRLF;
    assert SkipBlanks(d + CRLF) == d + CRLF;
    hide DigitPrefix;
  }

  lemma BulkRead(a: bytes, rest: bytes)
    requires ShortNumber(|a|) && |a| <= LLONG_MAX
    ensures ReadString(EncodeBulk(a) + rest) == Ok((a, rest))
  {
    hide ReadLong, Line;
    var t := a + CRLF + rest;
    assert EncodeBulk(a) + rest == Line(DOLLAR, |a|) + t;
    LineRead(DOLLAR, |a|, t);
    assert t[|a|..|a| + 2] == CRLF && t[..|a|] == a && t[|a| + 2..] == rest;
  }

  lemma {:induction false} ArgsRead(args: seq<bytes>, rest: bytes)
    requires forall i :: 0 <= i < |args| ==> ShortNumber(|args[i]|) && |args[i]| <= LLONG_MAX
    ensures ReadStrings(EncodeArgs(args) + rest, |args|) == Ok((args, rest))
    decreases |args|
  {
    hide ReadString, EncodeBulk, ShortNumber;
    if args == [] {
      assert EncodeArgs(args) + rest == rest;
    } else {
      assert EncodeArgs(args) + rest == EncodeBulk(args[0]) + (EncodeArgs(args[1..]) + rest);
      BulkRead(args[0], EncodeArgs(args[1..]) + rest);
      ArgsRead(args[1..], rest);
      assert [args[0]] + args[1..] == args;
    }
  }

  /** A command whose numbers fit a long. */
  predicate Plain(c: Command) {
    Loadable(c) && |c| <= LLONG_MAX && forall i :: 0 <= i < |c| ==> |c[i]| <= LLONG_MAX
  }

  lemma {:induction false} CommandRead(c: Command, rest: bytes)
    requires Plain(c)
    ensures ReadCommand(EncodeCommand(c) + rest) == Ok((c, rest))
  {
    hide ReadLong, ReadStrings, Line;
    assert EncodeCommand(c) + rest == Line(STAR, |c|) + (EncodeArgs(c) + rest);
    LineRead(STAR, |c|, EncodeArgs(c) + rest);
    ArgsRead(c, rest);
  }

  /** A command that was cut off is not read as one. */
  lemma TornRead(c: Command, cut: nat)
    requires Plain(c) && cut < |EncodeCommand(c)|
    ensures ReadCommand(EncodeCommand(c)[..cut]).Err?
  {
    hide ReadCommand, EncodeCommand, Plain;
    var t, x := EncodeCommand(c)[..cut], EncodeCommand(c)[cut..];
    CommandRead(c, []);
    assert t + x == EncodeCommand(c) + [] == EncodeCommand(c);
    if ReadCommand(t).Ok? { CommandStays(t, x); }
  }

  /** Whether MULTI and EXEC alternate in a list of commands; the result is whether
      one is left open. */
  function Brackets(cs: seq<Command>): Option<bool>
    decreases |cs|
  {
    if cs == [] then Some(false)
    else
      var c := cs[|cs| - 1];
      match Brackets(cs[..|cs| - 1])
      case None => None
      case Some(open) =>
        if Says(c, MULTI) then if open then None else Some(true)
        else if Says(c, EXEC) then if open then Some(false) else None
        else Some(open)
  }

  lemma {:induction false} AfterEncoded(cs: seq<Command>, rest: bytes)
    requires forall i :: 0 <= i < |cs| ==> Plain(cs[i])
    ensures After(EncodeAll(cs) + rest, |cs|) ==
      if Brackets(cs) == None then None else Some((|EncodeAll(cs)|, Brackets(cs).value))
    decreases |cs|
  {
    hide ReadCommand, EncodeCommand, Says, Plain;
    if cs == [] {
      assert EncodeAll(cs) == [];
    } else {
      var init, c := cs[..|cs| - 1], cs[|cs| - 1];
      assert cs == init + [c];
      EncodeAllConcat(init, [c]);
      EncodeOne(c);
      var more := EncodeCommand(c) + rest;
      assert EncodeAll(cs) + rest == EncodeAll(init) + more;
      AfterEncoded(init, more);
      CommandRead(c, rest);
      assert (EncodeAll(init) + more)[|EncodeAll(init)|..] == more;
    }
  }

  /**
  A crash in the middle of a write: the log is whole commands and the torn start
  of one more. If no MULTI is open before the torn command, exactly it is cut off.
  */
  lemma CrashRepair(cs: seq<Command>, c: Command, cut: nat)
    requires (forall i :: 0 <= i < |cs| ==> Plain(cs[i])) && Plain(c) && cut < |EncodeCommand(c)|
    requires Brackets(cs) == Some(false)
    ensures var s := EncodeAll(cs) + EncodeCommand(c)[..cut];
      Sound(s, |EncodeAll(cs)|) && forall p: nat :: Sound(s, p) ==> p <= |EncodeAll(cs)|
  {
    hide ReadCommand, EncodeCommand, Plain, Brackets;
    var torn := EncodeCommand(c)[..cut];
    var s, k := EncodeAll(cs) + torn, |cs|;
    AfterEncoded(cs, torn);
    TornRead(c, cut);
    assert s[|EncodeAll(cs)|..] == torn;
    Stops(s, k, |EncodeAll(cs)|, false);
    Longest(s, k, k, |EncodeAll(cs)|);
  }

  /** The loader's atoi and the tool's strtol agree. */
  lemma AtolIs(x: bytes)
    ensures var v := Strtoll(CString(x)).0;
      && (LLONG_MIN < v < LLONG_MAX ==> Atol(x) == v)
      && (v == LLONG_MIN ==> Atol(x) <= v)
  {
    BlanksCut(x);
    var t := SkipBlanks(x);
    DigitsCut(t);
    if t != [] { DigitsCut(t[1..]); }
    hide SkipBlanks, DigitPrefix, Decimal.Value;
    if t != [] && t[0] != 0 { assert CString(t)[1..] == CString(t[1..]); }
  }

  lemma {:induction false} BlanksCut(x: bytes)
    ensures SkipBlanks(CString(x)) == CString(SkipBlanks(x))
  {
    if x != [] && (x[0] == 32 || 9 <= x[0] <= 13) {
      assert CString(x)[1..] == CString(x[1..]);
      BlanksCut(x[1..]);
    }
  }

  lemma {:induction false} DigitsCut(x: bytes)
    ensures DigitPrefix(CString(x)) == DigitPrefix(x)
  {
    if x != [] && IsDigit(x[0]) {
      assert CString(x)[1..] == CString(x[1..]);
      DigitsCut(x[1..]);
    }
  }

  lemma {:induction false} LongLoads(s: bytes, prefix: byte)
    requires ReadLong(s, prefix).Ok?
    ensures var (v, rest) := ReadLong(s, prefix).value; var n := LineLength(s, FGETS_MAX);
      && s[0] == prefix && n >= 1 && rest == s[n..]
      && (0 <= v < LLONG_MAX ==> Atol(s[1..n]) == v) && (v < 0 ==> Atol(s[1..n]) < 0)
  {
    AtolIs(s[1..LineLength(s, FGETS_MAX)]);
    hide Atol, Strtoll, LineLength, CString;
  }

  lemma StringLoads(s: bytes)
    requires ReadString(s).Ok? && |s| < LLONG_MAX
    ensures DecodeArg(s) == Ok(ReadString(s).value)
  {
    LongLoads(s, DOLLAR);
    hide ReadLong, Atol, LineLength;
    var n, len := LineLength(s, FGETS_MAX), ReadLong(s, DOLLAR).value.0;
    assert s[n..][..len] == s[n..n + len] && s[n..][len + 2..] == s[n + len + 2..];
  }

  lemma {:induction false} StringsLoad(s: bytes, argc: nat)
    requires ReadStrings(s, argc).Ok? && |s| < LLONG_MAX
    ensures DecodeArgs(s, argc) == Ok(ReadStrings(s, argc).value)
    decreases argc
  {
    hide ReadString, DecodeArg;
    if argc > 0 {
      StringLoads(s);
      StringsLoad(ReadString(s).value.1, argc - 1);
    }
  }

  lemma {:induction false} FewStrings(s: bytes, argc: nat)
    requires ReadStrings(s, argc).Ok?
    ensures argc <= |s|
    decreases argc
  {
    hide ReadString;
    if argc > 0 { FewStrings(ReadString(s).value.1, argc - 1); }
  }

  /** The loader reads a command as the tool does, unless it has no arguments. */
  lemma {:induction false} CommandLoads(s: bytes)
    requires ReadCommand(s).Ok? && |s| < LLONG_MAX
    ensures s != []
    ensures DecodeCommand(s) == if ReadCommand(s).value.0 == [] then Err(FmtErr) else Ok(ReadCommand(s).value)
  {
    LongLoads(s, STAR);
    hide ReadLong, Atol, LineLength, ReadString, DecodeArg;
    var (argc, s1) := ReadLong(s, STAR).value;
    if argc > 0 {
      FewStrings(s1, argc);
      StringsLoad(s1, argc);
    }
  }

  /** Every command of the file can be read. */
  predicate AllRead(s: bytes)
    decreases |s|
  {
    s == [] || (ReadCommand(s).Ok? && AllRead(ReadCommand(s).value.1))
  }

  function Commands(s: bytes): seq<Command>
    requires AllRead(s)
    decreases |s|
  {
    if s == [] then [] else [ReadCommand(s).value.0] + Commands(ReadCommand(s).value.1)
  }

  lemma {:induction false} SoundReads(s: bytes, k: nat)
    requires After(s, k).Some? && AllRead(s[After(s, k).value.0..])
    ensures AllRead(s)
    decreases k
  {
    hide ReadCommand, Says;
    if k == 0 {
      assert s[0..] == s;
    } else {
      var p := After(s, k - 1).value.0;
      var q := After(s, k).value.0;
      CommandRest(s[p..]);
      assert ReadCommand(s[p..]).value.1 == s[q..];
      SoundReads(s, k - 1);
    }
  }

  lemma {:induction false} StringsRest(s: bytes, argc: int)
    requires ReadStrings(s, argc).Ok?
    ensures var rest := ReadStrings(s, argc).value.1; |rest| <= |s| && rest == s[|s| - |rest|..]
    decreases argc
  {
    hide ReadString;
    if argc > 0 {
      RestOfString(s);
      StringsRest(ReadString(s).value.1, argc - 1);
    }
  }

  lemma {:induction false} CommandRest(s: bytes)
    requires ReadCommand(s).Ok?
    ensures var rest := ReadCommand(s).value.1; |rest| < |s| && rest == s[|s| - |rest|..]
  {
    hide ReadLong, ReadStrings;
    RestOfLong(s, STAR);
    StringsRest(ReadLong(s, STAR).value.1, ReadLong(s, STAR).value.0);
  }

  lemma {:induction false} AllLoad(s: bytes)
    requires AllRead(s) && |s| < LLONG_MAX
    ensures Decode(s) == if [] in Commands(s) then Err(FmtErr) else Ok(Commands(s))
    decreases |s|
  {
    hide ReadCommand, DecodeCommand;
    if s != [] {
      CommandLoads(s);
      AllLoad(ReadCommand(s).value.1);
    }
  }

  /** A file that the tool finds sound throughout is one the loader can cut into
      commands if and only if none of them is without arguments: the tool accepts
      counts of zero and below, the loader does not (aof.c:331). */
  lemma {:induction false} SoundLoads(s: bytes)
    requires Sound(s, |s|) && |s| < LLONG_MAX
    ensures AllRead(s)
    ensures Decode(s).Ok? <==> [] !in Commands(s)
    ensures Decode(s).Ok? ==> Decode(s).value == Commands(s)
  {
    hide After, ReadCommand, Decode;
    var k: nat :| After(s, k) == Some((|s|, false));
    assert s[|s|..] == [];
    SoundReads(s, k);
    AllLoad(s);
  }

  /** The smallest such file: "*0\r\n" is sound, and does not load. */
  lemma {:induction false} EmptyCommand()
    ensures var s: bytes := [42, 48, 13, 10]; Sound(s, 4) && Decode(s) == Err(FmtErr)
  {
    var s: bytes := Line(STAR, 0);
    LineRead(STAR, 0, []);
    assert s + [] == s == [42, 48, 13, 10];
    assert ReadCommand(s) == Ok(([], []));
    OneTurn(s);
    SoundLoads(s);
    AllLoad(s);
    assert Commands(s) == [[]];
    assert [] in Commands(s);
  }

  lemma OneTurn(s: bytes)
    requires ReadCommand(s) == Ok(([], []))
    ensures Sound(s, |s|)
  {
    assert s[0..] == s;
    assert After(s, 0) == Some((0, false));
    assert After(s, 1) == Some((|s|, false));
  }
}
