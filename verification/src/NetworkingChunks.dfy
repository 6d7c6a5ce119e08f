/** Parsing does not depend on how the stream is cut into reads. */
module NetworkingChunks {
  import opened Common
  import opened Decimal
  import opened Resp
  import opened NetworkingModel

  /** A command a client may send: not empty, and within the limits of
      networking.c:794 and 839. */
  predicate Sendable(c: Command) {
    1 <= |c| <= MAX_ARGS && forall i :: 0 <= i < |c| ==> |c[i]| <= MAX_BULK
  }

  predicate AllSendable(cs: seq<Command>) {
    forall i :: 0 <= i < |cs| ==> Sendable(cs[i])
  }

  // ---- the place of a cut, from the lengths of the items alone --------------

  /** Where a cut after `p` bytes falls: the start of the command it is in, the end
      of the last complete count line or argument, and whether the next thing to
      come is a count line whose '\r' has not arrived. */
  datatype Place = Place(start: nat, used: nat, line: bool)

  function PlaceInArgs(args: seq<bytes>, p: nat): (r: Place)
  {
    if args == [] then Place(0, 0, false)
    else
      var l := |Line(DOLLAR, |args[0]|)|;
      if p < l then Place(0, 0, p <= l - 2)
      else if p < l + |args[0]| + 2 then Place(0, l, false)
      else
        var r := PlaceInArgs(args[1..], p - (l + |args[0]| + 2));
        Place(0, l + |args[0]| + 2 + r.used, r.line)
  }

  function PlaceInCommand(c: Command, p: nat): (r: Place) {
    var l := |Line(STAR, |c|)|;
    if p < l then Place(0, 0, p <= l - 2)
    else
      var r := PlaceInArgs(c, p - l);
      Place(0, l + r.used, r.line)
  }

  function PlaceOf(cs: seq<Command>, p: nat): (r: Place)
    decreases |cs|
  {
    if cs == [] || p == 0 then Place(0, 0, false)
    else
      var e := |EncodeCommand(cs[0])|;
      if p < e then PlaceInCommand(cs[0], p)
      else
        var r := PlaceOf(cs[1..], p - e);
        Place(e + r.start, e + r.used, r.line)
  }

  /**
  The read of `n` bytes after `seen` runs into the check of networking.c:779 and
  819: a count line has not arrived, and the buffer, which still holds whatever
  the pass consumed of the same command, is longer than 64K.
  */
  predicate Trips(cs: seq<Command>, seen: nat, n: nat) {
    var before, after := PlaceOf(cs, seen), PlaceOf(cs, seen + n);
    var from := if before.used > after.start then before.used else after.start;
    after.line && seen + n > from + INLINE_MAX_SIZE
  }

  // ---- the state at a cut --------------------------------------------------

  function InArgs(done: seq<Command>, read: Command, args: seq<bytes>, p: nat): (r: Client)
    requires p < |EncodeArgs(args)|
    ensures r.multibulklen > 0 && r.bulklen >= -1 && r.req == Multibulk && !r.closing && r.dispatched == done
    decreases |args|
  {
    var a := args[0];
    var line := Line(DOLLAR, |a|);
    if p < |line| then Client(line[..p], read, |args|, -1, Multibulk, false, done)
    else if p < |line| + |a| + 2 then Client((a + CRLF)[..p - |line|], read, |args|, |a|, Multibulk, false, done)
    else InArgs(done, read + [a], args[1..], p - (|line| + |a| + 2))
  }

  function InCommand(done: seq<Command>, c: Command, p: nat): (r: Client)
    requires p < |EncodeCommand(c)|
    ensures r.bulklen >= -1 && r.req == Multibulk && !r.closing && r.dispatched == done
  {
    var line := Line(STAR, |c|);
    if p < |line| then Client(line[..p], [], 0, -1, Multibulk, false, done)
    else InArgs(done, [], c, p - |line|)
  }

  /** The client between two commands. */
  function Between(done: seq<Command>): Client {
    Client([], [], 0, -1, Unknown, false, done)
  }

  /** The client after the first `p` bytes of the stream. */
  function StateAt(done: seq<Command>, cs: seq<Command>, p: nat): Client
    requires p <= |EncodeAll(cs)|
    decreases |cs|
  {
    if cs == [] || p == 0 then Between(done)
    else
      var e := |EncodeCommand(cs[0])|;
      if p < e then InCommand(done, cs[0], p) else StateAt(done + [cs[0]], cs[1..], p - e)
  }

  // ---- reading the arguments ------------------------------------------------

  /** A complete count line sets the length of the argument to come. */
  lemma LineRead(c: Client, n: nat, whole: nat)
    requires c.multibulklen > 0 && c.bulklen == -1 && n <= MAX_BULK
    requires Line(DOLLAR, n) <= c.buf
    ensures ReadArgs(c, whole) == ReadArgs(c.(buf := c.buf[|Line(DOLLAR, n)|..], bulklen := n), whole)
  {
    var x, line := c.buf, Line(DOLLAR, n);
    assert x[..|line|] == line;
    assert x[..2 + |Digits(n)|] == x[..|line|][..2 + |Digits(n)|] == line[..2 + |Digits(n)|];
    LineFound(DOLLAR, n, x);
    LineNumber(DOLLAR, n, x);
  }

  /** An argument is read when all its bytes and the CRLF are there. */
  lemma BulkRead(c: Client, a: bytes, whole: nat)
    requires c.multibulklen > 0 && c.bulklen == |a| && a + CRLF <= c.buf
    ensures ReadArgs(c, whole) ==
      ReadArgs(c.(buf := c.buf[|a| + 2..], argv := c.argv + [a], bulklen := -1,
                  multibulklen := c.multibulklen - 1), whole)
  {
    assert c.buf[..|a|] == c.buf[..|a| + 2][..|a|] == (a + CRLF)[..|a|] == a;
  }

  lemma BulkPartly(c: Client, whole: nat)
    requires c.bulklen >= 0 && (c.multibulklen > 0 ==> |c.buf| < c.bulklen + 2)
    ensures ReadArgs(c, whole) == (c, c.multibulklen == 0)
  {
  }

  lemma TailOfTail(x: bytes, i: nat, j: nat, k: nat)
    requires i + j + k <= |x|
    ensures x[i..][j..] == x[i + j..] && x[i..][j..][k..] == x[i + j + k..]
  {
  }

  lemma PrefixTail(x: bytes, head: bytes, rest: bytes)
    requires x <= head + rest && |x| >= |head|
    ensures head <= x && x[|head|..] <= rest
  {
    assert x == (head + rest)[..|x|];
    assert x[..|head|] == head && x[|head|..] == rest[..|x| - |head|];
  }

  lemma PrefixHead(x: bytes, head: bytes, rest: bytes)
    requires x <= head + rest && |x| <= |head|
    ensures x == head[..|x|]
  {
    assert x == (head + rest)[..|x|];
  }

  /** Any part of the arguments, from their beginning: all of them are read, or the
      pass stops at the state of the cut, or at the size check. */
  lemma {:induction false} ReadArgsOf(
      done: seq<Command>, read: Command, args: seq<bytes>, x: bytes, t: bytes, whole: nat)
    requires (forall i :: 0 <= i < |args| ==> |args[i]| <= MAX_BULK) && x <= EncodeArgs(args) + t
    ensures var e := |EncodeArgs(args)|;
            var r := ReadArgs(Client(x, read, |args|, -1, Multibulk, false, done), whole);
            if |x| >= e then r == (Client(x[e..], read + args, 0, -1, Multibulk, false, done), true)
            else r == (InArgs(done, read, args, |x|)
                         .(closing := PlaceInArgs(args, |x|).line && whole > INLINE_MAX_SIZE), false)
    decreases |args|
  {
    hide ReadArgs, Line, Digits;
    var c := Client(x, read, |args|, -1, Multibulk, false, done);
    if args == [] {
      assert x[0..] == x && read + args == read;
      NoArgsLeft(c, whole);
    } else {
      var a, rest := args[0], EncodeArgs(args[1..]) + t;
      var line := Line(DOLLAR, |a|);
      assert EncodeArgs(args) + t == line + ((a + CRLF) + rest);
      if |x| < |line| {
        PrefixHead(x, line, (a + CRLF) + rest);
        LinePartly(c, |a|, whole);
      } else {
        PrefixTail(x, line, (a + CRLF) + rest);
        LineRead(c, |a|, whole);
        var y := x[|line|..];
        var c1 := c.(buf := y, bulklen := |a|);
        if |y| < |a| + 2 {
          PrefixHead(y, a + CRLF, rest);
          BulkPartly(c1, whole);
        } else {
          PrefixTail(y, a + CRLF, rest);
          BulkRead(c1, a, whole);
          var z := y[|a| + 2..];
          ReadArgsOf(done, read + [a], args[1..], z, t, whole);
          TailOfTail(x, |line|, |a| + 2, if |z| >= |EncodeArgs(args[1..])| then |EncodeArgs(args[1..])| else 0);
          assert read + [a] + args[1..] == read + args;
        }
      }
    }
  }

  lemma NoArgsLeft(c: Client, whole: nat)
    requires c.bulklen == -1 && c.multibulklen == 0
    ensures ReadArgs(c, whole) == (c, true)
  {
  }

  /** A count line that is not complete stops the pass. */
  lemma LinePartly(c: Client, n: nat, whole: nat)
    requires c.multibulklen > 0 && c.bulklen == -1
    requires |c.buf| < |Line(DOLLAR, n)| && c.buf == Line(DOLLAR, n)[..|c.buf|]
    ensures ReadArgs(c, whole) ==
      (c.(closing := if |c.buf| <= |Line(DOLLAR, n)| - 2 && whole > INLINE_MAX_SIZE then true else c.closing), false)
  {
    var x, line := c.buf, Line(DOLLAR, n);
    if |x| <= |line| - 2 {
      LineNotFound(DOLLAR, n, |x|);
    } else {
      assert x[..|line| - 1] == line[..|line| - 1];
      LineFound(DOLLAR, n, x);
    }
  }

  /** Dropping a complete head from a cut text and what follows it. */
  lemma SkipHead(head: bytes, rest: bytes, p: nat, y: bytes, t: bytes)
    requires |head| <= p <= |head + rest| && (head + rest)[..p] + y <= head + rest + t
    ensures head <= (head + rest)[..p] + y
    ensures ((head + rest)[..p] + y)[|head|..] == rest[..p - |head|] + y
    ensures rest[..p - |head|] + y <= rest + t
  {
    var x := (head + rest)[..p] + y;
    assert (head + rest)[..p] == head + rest[..p - |head|];
    assert x == head + (rest[..p - |head|] + y) && head + rest + t == head + (rest + t);
    PrefixTail(x, head, rest + t);
    assert x[|head|..] == rest[..p - |head|] + y;
  }

  /** What a pass comes to that begins in the state of a cut, with the bytes that follow. */
  ghost predicate Resumes(done: seq<Command>, read: Command, args: seq<bytes>, p: nat, y: bytes, whole: nat)
    requires p < |EncodeArgs(args)|
  {
    var e := |EncodeArgs(args)|;
    var x := EncodeArgs(args)[..p] + y;
    var st := InArgs(done, read, args, p);
    var r := ReadArgs(st.(buf := st.buf + y), whole);
    if |x| >= e then r == (Client(x[e..], read + args, 0, -1, Multibulk, false, done), true)
    else r == (InArgs(done, read, args, |x|)
                 .(closing := PlaceInArgs(args, |x|).line && whole > INLINE_MAX_SIZE), false)
  }

  /** Such a pass does what one does that has all bytes from the first argument on. */
  lemma {:induction false} ReadArgsResumed(
      done: seq<Command>, read: Command, args: seq<bytes>, p: nat, y: bytes, t: bytes, whole: nat)
    requires (forall i :: 0 <= i < |args| ==> |args[i]| <= MAX_BULK) && p < |EncodeArgs(args)|
    requires EncodeArgs(args)[..p] + y <= EncodeArgs(args) + t
    ensures Resumes(done, read, args, p, y, whole)
    decreases |args|
  {
    hide Resumes, Line, InArgs, ReadArgs;
    var a, rest := args[0], EncodeArgs(args[1..]);
    var step := |Line(DOLLAR, |a|)| + |a| + 2;
    if p < step {
      ResumesInFirst(done, read, args, p, y, t, whole);
    } else {
      assert EncodeArgs(args) == EncodeBulk(a) + rest;
      SkipHead(EncodeBulk(a), rest, p, y, t);
      ReadArgsResumed(done, read + [a], args[1..], p - step, y, t, whole);
      ResumesLater(done, read, args, p, y, whole);
    }
  }

  /** The cut is in the count line or the bytes of the first argument. */
  lemma ResumesInFirst(
      done: seq<Command>, read: Command, args: seq<bytes>, p: nat, y: bytes, t: bytes, whole: nat)
    requires (forall i :: 0 <= i < |args| ==> |args[i]| <= MAX_BULK)
    requires args != [] && p < |Line(DOLLAR, |args[0]|)| + |args[0]| + 2 <= |EncodeArgs(args)|
    requires EncodeArgs(args)[..p] + y <= EncodeArgs(args) + t
    ensures Resumes(done, read, args, p, y, whole)
  {
    hide ReadArgs, Line, Digits;
    var a, rest, x := args[0], EncodeArgs(args[1..]), EncodeArgs(args)[..p] + y;
    var line := Line(DOLLAR, |a|);
    assert EncodeArgs(args) == line + ((a + CRLF) + rest);
    ReadArgsOf(done, read, args, x, t, whole);
    if p < |line| {
      assert EncodeArgs(args)[..p] == line[..p];
    } else {
      SkipHead(line, (a + CRLF) + rest, p, y, t);
      assert ((a + CRLF) + rest)[..p - |line|] == (a + CRLF)[..p - |line|];
      LineRead(Client(x, read, |args|, -1, Multibulk, false, done), |a|, whole);
    }
  }

  /** The cut is behind the first argument. */
  lemma ResumesLater(done: seq<Command>, read: Command, args: seq<bytes>, p: nat, y: bytes, whole: nat)
    requires args != [] && |Line(DOLLAR, |args[0]|)| + |args[0]| + 2 <= p < |EncodeArgs(args)|
    requires var step := |Line(DOLLAR, |args[0]|)| + |args[0]| + 2;
      Resumes(done, read + [args[0]], args[1..], p - step, y, whole)
    ensures Resumes(done, read, args, p, y, whole)
  {
    hide ReadArgs, Line, Digits;
    var a, rest := args[0], EncodeArgs(args[1..]);
    var bulk := EncodeBulk(a);
    var x, x' := EncodeArgs(args)[..p] + y, rest[..p - |bulk|] + y;
    assert EncodeArgs(args) == bulk + rest;
    assert x == bulk + x';
    if |x'| >= |rest| { assert x[|bulk| + |rest|..] == x'[|rest|..]; }
    assert read + [a] + args[1..] == read + args;
  }

  /** How much the state at a cut still holds of the command it is in. */
  lemma {:induction false} HeldInArgs(done: seq<Command>, read: Command, args: seq<bytes>, p: nat)
    requires p < |EncodeArgs(args)|
    ensures |InArgs(done, read, args, p).buf| == p - PlaceInArgs(args, p).used
    ensures PlaceInArgs(args, p).start == 0
    decreases |args|
  {
    var step := |Line(DOLLAR, |args[0]|)| + |args[0]| + 2;
    if p >= step { HeldInArgs(done, read + [args[0]], args[1..], p - step); }
  }

  lemma HeldInCommand(done: seq<Command>, c: Command, p: nat)
    requires p < |EncodeCommand(c)|
    ensures |InCommand(done, c, p).buf| == p - PlaceInCommand(c, p).used
    ensures PlaceInCommand(c, p).start == 0
  {
    var l := |Line(STAR, |c|)|;
    if p >= l { HeldInArgs(done, [], c, p - l); }
  }

  // ---- one command ----------------------------------------------------------

  /** What processMultibulkBuffer makes of a command that is cut inside its header,
      or has just begun, and the bytes that follow. */
  lemma MultibulkBegun(done: seq<Command>, c: Command, x: bytes, t: bytes)
    requires Sendable(c) && x <= EncodeCommand(c) + t
    ensures var e := |EncodeCommand(c)|;
            var r := ProcessMultibulk(Client(x, [], 0, -1, Multibulk, false, done));
            if |x| >= e then r == (Client(x[e..], c, 0, -1, Multibulk, false, done), true)
            else r == (InCommand(done, c, |x|).(closing := PlaceInCommand(c, |x|).line && |x| > INLINE_MAX_SIZE), false)
  {
    hide ReadArgs, Line, Digits, FindCr, ProcessMultibulk;
    var line := Line(STAR, |c|);
    var st := Client(x, [], 0, -1, Multibulk, false, done);
    assert EncodeCommand(c) + t == line + (EncodeArgs(c) + t);
    if |x| < |line| {
      PrefixHead(x, line, EncodeArgs(c) + t);
      HeaderPartly(st, |c|);
    } else {
      PrefixTail(x, line, EncodeArgs(c) + t);
      HeaderRead(st, |c|);
      var z := x[|line|..];
      ReadArgsOf(done, [], c, z, t, |x|);
      TailOfTail(x, |line|, if |z| >= |EncodeArgs(c)| then |EncodeArgs(c)| else 0, 0);
      assert [] + c == c;
    }
  }

  /** The same for any cut: the state there, and the bytes that follow. */
  lemma MultibulkResumed(done: seq<Command>, c: Command, p: nat, y: bytes, t: bytes)
    requires Sendable(c) && p < |EncodeCommand(c)|
    requires EncodeCommand(c)[..p] + y <= EncodeCommand(c) + t
    ensures var e := |EncodeCommand(c)|;
            var x := EncodeCommand(c)[..p] + y;
            var st := InCommand(done, c, p);
            var whole := |st.buf| + |y|;
            var r := ProcessMultibulk(st.(buf := st.buf + y));
            if |x| >= e then r == (Client(x[e..], c, 0, -1, Multibulk, false, done), true)
            else r == (InCommand(done, c, |x|).(closing := PlaceInCommand(c, |x|).line && whole > INLINE_MAX_SIZE),
                       false)
  {
    hide ReadArgs, Line, Digits, FindCr, InArgs, PlaceInArgs, EncodeArgs;
    var line, all := Line(STAR, |c|), EncodeCommand(c);
    var x := all[..p] + y;
    if p < |line| {
      assert all[..p] == line[..p] && InCommand(done, c, p).buf + y == x;
      MultibulkBegun(done, c, x, t);
    } else {
      var q := p - |line|;
      SkipHead(line, EncodeArgs(c), p, y, t);
      ReadArgsResumed(done, [], c, q, y, t, |InCommand(done, c, p).buf| + |y|);
      TailOfTail(x, |line|, if |x| >= |all| then |EncodeArgs(c)| else 0, 0);
      assert [] + c == c;
    }
  }

  /** A complete header sets the number of arguments. */
  lemma HeaderRead(c: Client, n: nat)
    requires c.multibulklen == 0 && c.bulklen == -1 && 1 <= n <= MAX_ARGS && Line(STAR, n) <= c.buf
    ensures ProcessMultibulk(c) == ReadArgs(c.(buf := c.buf[|Line(STAR, n)|..], multibulklen := n), |c.buf|)
  {
    hide ReadArgs;
    var x, line := c.buf, Line(STAR, n);
    assert x[..|line|] == line;
    assert x[..2 + |Digits(n)|] == x[..|line|][..2 + |Digits(n)|] == line[..2 + |Digits(n)|];
    LineFound(STAR, n, x);
    LineNumber(STAR, n, x);
  }

  lemma HeaderPartly(c: Client, n: nat)
    requires c.multibulklen == 0 && c.bulklen == -1
    requires |c.buf| < |Line(STAR, n)| && c.buf == Line(STAR, n)[..|c.buf|]
    ensures ProcessMultibulk(c) ==
      (c.(closing := if |c.buf| <= |Line(STAR, n)| - 2 && |c.buf| > INLINE_MAX_SIZE then true else c.closing), false)
  {
    hide ReadArgs;
    var x, line := c.buf, Line(STAR, n);
    if |x| <= |line| - 2 {
      LineNotFound(STAR, n, |x|);
    } else {
      assert x[..|line| - 1] == line[..|line| - 1];
      LineFound(STAR, n, x);
    }
  }

  // ---- the whole input --------------------------------------------------------

  /** One turn of the loop of processInputBuffer. */
  lemma OnePass(c: Client)
    requires c.bulklen >= -1 && c.buf != [] && !c.closing && c.req == Multibulk
    ensures var (r, ok) := ProcessMultibulk(c);
            ProcessInput(c) == (if !ok then r
                                else ProcessInput(Reset(if r.argv == [] then r
                                                        else r.(dispatched := r.dispatched + [r.argv]))))
  {
    hide ProcessMultibulk;
  }

  /** The type of the request is read off its first byte. */
  lemma FirstPass(c: Client)
    requires c.bulklen >= -1 && c.req == Unknown && c.buf != [] && c.buf[0] == STAR
    ensures ProcessInput(c) == ProcessInput(c.(req := Multibulk)) || c.closing
  {
    hide ProcessMultibulk;
  }

  lemma NothingToDo(c: Client)
    requires c.bulklen >= -1 && c.buf == []
    ensures ProcessInput(c) == c
  {
  }

  /** Parsing from the start of a command: the commands that are complete are
      dispatched, and the client is left at the cut, or closed by the size check. */
  lemma {:induction false} InputFromStart(done: seq<Command>, cs: seq<Command>, x: bytes)
    requires AllSendable(cs) && x <= EncodeAll(cs)
    ensures var w := PlaceOf(cs, |x|);
            ProcessInput(Client(x, [], 0, -1, Unknown, false, done)) ==
            StateAt(done, cs, |x|).(closing := w.line && |x| > w.start + INLINE_MAX_SIZE)
    decreases |cs|
  {
    hide ProcessMultibulk, ProcessInput, InCommand, PlaceInCommand, EncodeCommand;
    var st := Client(x, [], 0, -1, Unknown, false, done);
    if x == [] {
      NothingToDo(st);
    } else {
      var c, rest := cs[0], EncodeAll(cs[1..]);
      assert EncodeAll(cs) == EncodeCommand(c) + rest;
      StartsWithStar(c, x, rest);
      FirstPass(st);
      OnePass(st.(req := Multibulk));
      MultibulkBegun(done, c, x, rest);
      if |x| >= |EncodeCommand(c)| {
        PrefixTail(x, EncodeCommand(c), rest);
        InputFromStart(done + [c], cs[1..], x[|EncodeCommand(c)|..]);
      } else {
        HeldInCommand(done, c, |x|);
      }
    }
  }

  lemma StartsWithStar(c: Command, x: bytes, rest: bytes)
    requires x != [] && x <= EncodeCommand(c) + rest
    ensures x[0] == STAR
  {
    assert x[0] == (EncodeCommand(c) + rest)[0];
  }

  /** The same for a read that continues from a cut. */
  lemma {:induction false} FeedAt(done: seq<Command>, cs: seq<Command>, p: nat, y: bytes)
    requires AllSendable(cs) && p <= |EncodeAll(cs)| && EncodeAll(cs)[..p] + y <= EncodeAll(cs)
    ensures StateAt(done, cs, p).bulklen >= -1
    ensures Feed(StateAt(done, cs, p), y) == StateAt(done, cs, p + |y|).(closing := Trips(cs, p, |y|))
    decreases |cs|
  {
    hide ProcessInput, InCommand, PlaceInCommand, EncodeCommand;
    var all := EncodeAll(cs);
    if cs == [] || p == 0 {
      assert all[..p] + y == y && [] + y == y;
      InputFromStart(done, cs, y);
    } else {
      var c, rest := cs[0], EncodeAll(cs[1..]);
      var e := |EncodeCommand(c)|;
      assert all == EncodeCommand(c) + rest;
      assert all + [] == all;
      if p < e {
        FeedInCommand(done, cs, p, y);
      } else {
        SkipHead(EncodeCommand(c), rest, p, y, []);
        assert rest + [] == rest;
        FeedAt(done + [c], cs[1..], p - e, y);
      }
    }
  }

  lemma FeedInCommand(done: seq<Command>, cs: seq<Command>, p: nat, y: bytes)
    requires AllSendable(cs) && cs != [] && 0 < p < |EncodeCommand(cs[0])|
    requires EncodeAll(cs)[..p] + y <= EncodeAll(cs)
    ensures Feed(StateAt(done, cs, p), y) == StateAt(done, cs, p + |y|).(closing := Trips(cs, p, |y|))
  {
    hide ProcessInput, InCommand, PlaceInCommand, EncodeCommand;
    var c := cs[0];
    var st := InCommand(done, c, p);
    HeldInCommand(done, c, p);
    if st.buf + y == [] {
      assert y == [] && st.buf + y == st.buf;
      NothingToDo(st);
    } else if p + |y| >= |EncodeCommand(c)| {
      FeedCompletes(done, cs, p, y);
    } else {
      FeedStops(done, cs, p, y);
    }
  }

  /** The read brings the end of the command. */
  lemma FeedCompletes(done: seq<Command>, cs: seq<Command>, p: nat, y: bytes)
    requires AllSendable(cs) && cs != [] && 0 < p < |EncodeCommand(cs[0])| <= p + |y|
    requires EncodeAll(cs)[..p] + y <= EncodeAll(cs)
    ensures Feed(StateAt(done, cs, p), y) == StateAt(done, cs, p + |y|).(closing := Trips(cs, p, |y|))
  {
    hide ProcessMultibulk, ProcessInput, InCommand, PlaceInCommand, EncodeCommand;
    var c, rest := cs[0], EncodeAll(cs[1..]);
    var e := EncodeCommand(c);
    var st := InCommand(done, c, p);
    var x := e[..p] + y;
    assert EncodeAll(cs) == e + rest && EncodeAll(cs)[..p] == e[..p];
    MultibulkResumed(done, c, p, y, rest);
    OnePass(st.(buf := st.buf + y));
    PrefixTail(x, e, rest);
    InputFromStart(done + [c], cs[1..], x[|e|..]);
    StartsAfter(cs, p, |x| - |e|);
  }

  /** The read stops inside the command. */
  lemma FeedStops(done: seq<Command>, cs: seq<Command>, p: nat, y: bytes)
    requires AllSendable(cs) && cs != [] && 0 < p <= p + |y| < |EncodeCommand(cs[0])|
    requires EncodeAll(cs)[..p] + y <= EncodeAll(cs) && InCommand(done, cs[0], p).buf + y != []
    ensures Feed(StateAt(done, cs, p), y) == StateAt(done, cs, p + |y|).(closing := Trips(cs, p, |y|))
  {
    hide ProcessMultibulk, ProcessInput, InCommand, PlaceInCommand, EncodeCommand;
    var c, rest := cs[0], EncodeAll(cs[1..]);
    var e := EncodeCommand(c);
    var st := InCommand(done, c, p);
    assert EncodeAll(cs) == e + rest && EncodeAll(cs)[..p] == e[..p];
    HeldInCommand(done, c, p);
    MultibulkResumed(done, c, p, y, rest);
    OnePass(st.(buf := st.buf + y));
    HeldInCommand(done, c, p + |y|);
  }

  /** The place of a cut behind a complete first command. */
  lemma StartsAfter(cs: seq<Command>, p: nat, q: nat)
    requires cs != [] && 0 < p < |EncodeCommand(cs[0])|
    ensures PlaceOf(cs, p).used <= |EncodeCommand(cs[0])|
    ensures var e := |EncodeCommand(cs[0])|;
            && PlaceOf(cs, e + q).start == e + PlaceOf(cs[1..], q).start
            && PlaceOf(cs, e + q).line == PlaceOf(cs[1..], q).line
  {
    HeldInCommand([], cs[0], p);
  }

  /** After the size check has closed the connection nothing more is dispatched. */
  lemma {:induction false} ClosedStays(c: Client, chunks: seq<bytes>)
    requires c.bulklen >= -1 && c.closing
    ensures FeedAll(c, chunks).closing && FeedAll(c, chunks).dispatched == c.dispatched
    decreases |chunks|
  {
    if chunks != [] {
      ClosedStays(Feed(c, chunks[0]), chunks[1..]);
    }
  }

  function Flatten(chunks: seq<bytes>): bytes {
    if chunks == [] then [] else chunks[0] + Flatten(chunks[1..])
  }

  /** Some read of the list, the first of which comes after `p` bytes, trips the check. */
  ghost predicate SomeTrips(cs: seq<Command>, p: nat, chunks: seq<bytes>)
    decreases |chunks|
  {
    chunks != [] && (Trips(cs, p, |chunks[0]|) || SomeTrips(cs, p + |chunks[0]|, chunks[1..]))
  }

  /** How many bytes have arrived when the check is tripped, or else at the end. */
  ghost function BytesRead(cs: seq<Command>, p: nat, chunks: seq<bytes>): (n: nat)
    ensures p <= n <= p + |Flatten(chunks)|
    decreases |chunks|
  {
    if chunks == [] then p
    else if Trips(cs, p, |chunks[0]|) then p + |chunks[0]|
    else BytesRead(cs, p + |chunks[0]|, chunks[1..])
  }

  /** How many commands of the list are complete after `p` bytes. */
  function Complete(cs: seq<Command>, p: nat): (n: nat)
    ensures n <= |cs|
    decreases |cs|
  {
    if cs == [] || p < |EncodeCommand(cs[0])| then 0
    else 1 + Complete(cs[1..], p - |EncodeCommand(cs[0])|)
  }

  lemma {:induction false} DispatchedAt(done: seq<Command>, cs: seq<Command>, p: nat)
    requires p <= |EncodeAll(cs)|
    ensures StateAt(done, cs, p).dispatched == done + cs[..Complete(cs, p)]
    decreases |cs|
  {
    if cs == [] || p < |EncodeCommand(cs[0])| {
      assert done + cs[..0] == done;
    } else {
      var rest := p - |EncodeCommand(cs[0])|;
      DispatchedAt(done + [cs[0]], cs[1..], rest);
      var n := Complete(cs[1..], rest);
      assert done + [cs[0]] + cs[1..][..n] == done + cs[..n + 1];
    }
  }

  lemma {:induction false} FeedAllAt(cs: seq<Command>, p: nat, chunks: seq<bytes>)
    requires AllSendable(cs) && p <= |EncodeAll(cs)| && EncodeAll(cs)[..p] + Flatten(chunks) == EncodeAll(cs)
    ensures StateAt([], cs, p).bulklen >= -1
    ensures var r := FeedAll(StateAt([], cs, p), chunks);
            && (if SomeTrips(cs, p, chunks) then r.closing else r == StateAt([], cs, |EncodeAll(cs)|))
            && r.dispatched == cs[..Complete(cs, BytesRead(cs, p, chunks))]
    decreases |chunks|
  {
    hide Feed, Trips, StateAt, EncodeAll, Complete;
    var all := EncodeAll(cs);
    if chunks == [] {
      assert all[..p] + [] == all[..p];
      FeedAt([], cs, p, []);
      DispatchedAt([], cs, p);
    } else {
      var y, rest := chunks[0], Flatten(chunks[1..]);
      assert all[..p] + (y + rest) == all[..p] + y + rest;
      FeedAt([], cs, p, y);
      if Trips(cs, p, |y|) {
        DispatchedAt([], cs, p + |y|);
        ClosedStays(Feed(StateAt([], cs, p), y), chunks[1..]);
      } else {
        assert all[..p + |y|] == all[..p] + y;
        NotClosing([], cs, p + |y|);
        FeedAllAt(cs, p + |y|, chunks[1..]);
      }
    }
  }

  lemma {:induction false} NotClosing(done: seq<Command>, cs: seq<Command>, p: nat)
    requires p <= |EncodeAll(cs)|
    ensures !StateAt(done, cs, p).closing
    decreases |cs|
  {
    if cs != [] && p >= |EncodeCommand(cs[0])| {
      NotClosing(done + [cs[0]], cs[1..], p - |EncodeCommand(cs[0])|);
    }
  }

  lemma {:induction false} StateAtEnd(done: seq<Command>, cs: seq<Command>)
    ensures StateAt(done, cs, |EncodeAll(cs)|) == Between(done + cs)
    decreases |cs|
  {
    if cs == [] {
      assert done + cs == done;
    } else {
      StateAtEnd(done + [cs[0]], cs[1..]);
      assert done + [cs[0]] + cs[1..] == done + cs;
    }
  }

  /**
  Chunk independence, with the exact condition. However the stream of a list of
  commands is cut, the client ends with exactly these commands dispatched, in
  order, its buffer empty and its state reset -- unless some read trips the size
  check, and then the connection is closed instead, the commands that were complete
  by then having been dispatched.
  */
  lemma {:induction false} ChunkIndependent(cs: seq<Command>, chunks: seq<bytes>)
    requires AllSendable(cs) && Flatten(chunks) == EncodeAll(cs)
    ensures FeedAll(FRESH_CLIENT, chunks) == FRESH_CLIENT.(dispatched := cs) <==> !SomeTrips(cs, 0, chunks)
    ensures FeedAll(FRESH_CLIENT, chunks).closing <==> SomeTrips(cs, 0, chunks)
    ensures FeedAll(FRESH_CLIENT, chunks).dispatched == cs[..Complete(cs, BytesRead(cs, 0, chunks))]
  {
    assert EncodeAll(cs)[..0] + Flatten(chunks) == EncodeAll(cs);
    FeedAllAt(cs, 0, chunks);
    StateAtEnd([], cs);
    assert [] + cs == cs;
  }

  // ---- when the check is tripped -----------------------------------------------

  /** The most a read takes from the socket: REDIS_IOBUF_LEN. */
  const IOBUF_LEN: nat := 16384

  lemma {:induction false} HeldBoundArgs(args: seq<bytes>, p: nat, m: nat)
    requires 32 <= m <= MAX_BULK && forall i :: 0 <= i < |args| ==> |args[i]| <= m
    requires p <= |EncodeArgs(args)|
    ensures PlaceInArgs(args, p).used <= p <= PlaceInArgs(args, p).used + m + 1
    decreases |args|
  {
    if args != [] {
      var step := |Line(DOLLAR, |args[0]|)| + |args[0]| + 2;
      assert Pow10(9) == 10 * Pow10(8) == 100 * Pow10(7) == 1000 * Pow10(6) == 10000 * Pow10(5);
      assert Pow10(5) == 100000;
      DigitsShort(|args[0]|, 9);
      if p >= step { HeldBoundArgs(args[1..], p - step, m); }
    }
  }

  lemma {:induction false} HeldBound(cs: seq<Command>, p: nat, m: nat)
    requires AllSendable(cs) && p <= |EncodeAll(cs)| && 32 <= m <= MAX_BULK
    requires forall i, j :: 0 <= i < |cs| && 0 <= j < |cs[i]| ==> |cs[i][j]| <= m
    ensures PlaceOf(cs, p).used <= p <= PlaceOf(cs, p).used + m + 1
    decreases |cs|
  {
    if cs != [] && p > 0 {
      var c := cs[0];
      var e, l := |EncodeCommand(c)|, |Line(STAR, |c|)|;
      if p >= e {
        HeldBound(cs[1..], p - e, m);
      } else {
        assert Pow10(9) == 10 * Pow10(8) == 100 * Pow10(7) == 1000 * Pow10(6) == 10000 * Pow10(5);
        assert Pow10(5) == 100000;
        DigitsShort(|c|, 9);
        if p >= l { HeldBoundArgs(c, p - l, m); }
      }
    }
  }

  /** With reads of at most REDIS_IOBUF_LEN bytes, arguments of up to 48K - 1 bytes
      never trip the check. */
  lemma {:induction false} SmallArgumentsNeverTrip(cs: seq<Command>, p: nat, chunks: seq<bytes>)
    requires AllSendable(cs) && p + |Flatten(chunks)| <= |EncodeAll(cs)|
    requires forall i :: 0 <= i < |chunks| ==> |chunks[i]| <= IOBUF_LEN
    requires forall i, j :: 0 <= i < |cs| && 0 <= j < |cs[i]| ==> |cs[i][j]| <= INLINE_MAX_SIZE - IOBUF_LEN - 1
    ensures !SomeTrips(cs, p, chunks)
    decreases |chunks|
  {
    if chunks != [] {
      HeldBound(cs, p, INLINE_MAX_SIZE - IOBUF_LEN - 1);
      SmallArgumentsNeverTrip(cs, p + |chunks[0]|, chunks[1..]);
    }
  }

  /**
  But a legal command can be refused: when reads of the size the server makes end
  with one that stops behind an argument of 64K or more, before the '\r' of the
  next count line, the connection is closed and the command is not dispatched.
  */
  lemma {:induction false} LargeArgumentTrips(a: bytes, b: bytes, chunks: seq<bytes>, more: seq<bytes>)
    requires INLINE_MAX_SIZE <= |a| <= MAX_BULK && |b| <= MAX_BULK
    requires forall i :: 0 <= i < |chunks| ==> |chunks[i]| <= IOBUF_LEN
    requires Flatten(chunks + more) == EncodeAll([[a, b]])
    requires BehindFirst(a, b) <= |Flatten(chunks)| <= BehindFirst(a, b) + |Line(DOLLAR, |b|)| - 2
    ensures AllSendable([[a, b]]) && SomeTrips([[a, b]], 0, chunks + more)
    ensures FeedAll(FRESH_CLIENT, chunks + more).closing && FeedAll(FRESH_CLIENT, chunks + more).dispatched == []
    decreases |chunks|
  {
    hide EncodeAll, PlaceOf, SomeTrips, FeedAll, BytesRead, Complete, Line;
    var cs: seq<Command>, n := [[a, b]], |chunks| - 1;
    var p := |Flatten(chunks)|;
    assert chunks != [];
    var before, y := chunks[..n], chunks[n];
    var q := |Flatten(before)|;
    assert before + [y] == chunks && before + ([y] + more) == chunks + more;
    FlattenLast(before, y);
    if q < BehindFirst(a, b) {
      TwoArguments(a, b, q, p);
      TripsThere(cs, 0, before, y, more);
      assert before + [y] + more == chunks + more;
      ChunkIndependent(cs, chunks + more);
      NotComplete([a, b], BytesRead(cs, 0, chunks + more));
    } else {
      LargeArgumentTrips(a, b, before, [y] + more);
    }
  }

  /** Where the first of two arguments ends. */
  function BehindFirst(a: bytes, b: bytes): nat {
    |Line(STAR, 2)| + |Line(DOLLAR, |a|)| + |a| + 2
  }

  lemma {:induction false} FlattenLast(chunks: seq<bytes>, y: bytes)
    ensures Flatten(chunks + [y]) == Flatten(chunks) + y
  {
    if chunks == [] {
      assert [y][1..] == [];
    } else {
      assert (chunks + [y])[1..] == chunks[1..] + [y];
      FlattenLast(chunks[1..], y);
    }
  }

  /** A read that trips the check is one of the list, and none is taken after it. */
  lemma {:induction false} TripsThere(cs: seq<Command>, p: nat, before: seq<bytes>, y: bytes, after: seq<bytes>)
    requires Trips(cs, p + |Flatten(before)|, |y|)
    ensures SomeTrips(cs, p, before + [y] + after)
    ensures BytesRead(cs, p, before + [y] + after) <= p + |Flatten(before)| + |y|
    decreases |before|
  {
    hide Trips;
    var all := before + [y] + after;
    if before == [] {
      assert all[0] == y;
    } else {
      assert all[0] == before[0] && all[1..] == before[1..] + [y] + after;
      TripsThere(cs, p + |before[0]|, before[1..], y, after);
    }
  }

  lemma NotComplete(c: Command, p: nat)
    requires p < |EncodeCommand(c)|
    ensures [c][..Complete([c], p)] == []
  {
  }

  /** A cut in the first of two arguments, and one in the count line of the second. */
  lemma TwoArguments(a: bytes, b: bytes, q: nat, p: nat)
    requires INLINE_MAX_SIZE <= |a| <= MAX_BULK && |b| <= MAX_BULK
    requires q < BehindFirst(a, b) <= p <= BehindFirst(a, b) + |Line(DOLLAR, |b|)| - 2
    requires p - q <= IOBUF_LEN
    ensures AllSendable([[a, b]]) && p < |EncodeCommand([a, b])| && Trips([[a, b]], q, p - q)
  {
    var c: Command, l, first := [a, b], |Line(DOLLAR, |a|)|, |Line(STAR, 2)|;
    assert c[1..] == [b] && [b][1..] == [] && [c][1..] == [];
    assert |EncodeArgs([b])| == |Line(DOLLAR, |b|)| + |b| + 2;
    assert |EncodeArgs(c)| == l + |a| + 2 + |EncodeArgs([b])|;
    assert PlaceInArgs([b], p - BehindFirst(a, b)).line;
    assert PlaceInArgs(c, p - first).line && PlaceInArgs(c, q - first).used == l;
    assert PlaceInCommand(c, p).line && PlaceInCommand(c, q).used == first + l;
    assert PlaceOf([c], q).used == first + l && PlaceOf([c], p) == PlaceInCommand(c, p);
  }
}
