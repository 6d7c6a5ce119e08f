/** Which bytes close a connection: networking.c:718-728, 777-798 and 813-843. */
module NetworkingErrors {
  import opened Common
  import opened Decimal
  import opened Resp
  import opened NetworkingModel
  import opened NetworkingInline
  import opened NetworkingChunks
  import opened NetworkingMixed

  /** An argument with its count line, as far as the parser looks at it: the byte
      behind the '\r' of the line and the two bytes behind the argument are skipped. */
  datatype Argument = Argument(arg: bytes, lf: byte, end: bytes)

  predicate ArgumentOk(k: Argument) { |k.arg| <= MAX_BULK && |k.end| == 2 }

  function CountText(n: nat, lf: byte): (r: bytes)
    ensures |r| == 1 + |Digits(n)| + 2
  {
    [DOLLAR] + Digits(n) + [CR, lf]
  }

  /** The text of arguments; the count line of the first is left out if it is `known`. */
  function Loose(known: bool, ks: seq<Argument>): bytes {
    if ks == [] then []
    else
      (if known then [] else CountText(|ks[0].arg|, ks[0].lf)) + (ks[0].arg + ks[0].end + Loose(false, ks[1..]))
  }

  /** `rest` is what follows the whole arguments `ks` where the parser stands. */
  predicate Behind(c: Client, ks: seq<Argument>, rest: bytes) {
    && |ks| < c.multibulklen
    && (forall i :: 0 <= i < |ks| ==> ArgumentOk(ks[i]))
    && (c.bulklen >= 0 ==> ks != [] && |ks[0].arg| == c.bulklen)
    && c.buf == Loose(c.bulklen >= 0, ks) + rest
  }

  /** A number from 0 to 512M, as ll2string would write it. */
  ghost predicate IsLength(s: bytes) {
    exists n: nat :: n <= MAX_BULK && s == Digits(n)
  }

  /** A count line that cannot be read: more than 64K are in the buffer and its '\r' is
      not, or it does not start with '$', or it is no number from 0 to 512M. */
  ghost predicate BadCount(rest: bytes, whole: nat) {
    match FindCr(rest)
    case None => whole > INLINE_MAX_SIZE
    case Some(i) =>
      i + 2 <= |rest| && (rest[0] != DOLLAR || !IsLength(rest[1..i]))
  }

  lemma LengthIs(s: bytes)
    ensures IsLength(s) <==> var v := Canonical(s); v.Some? && 0 <= v.value <= MAX_BULK
    ensures IsLength(s) ==> s == Digits(Canonical(s).value)
  {
    if IsLength(s) {
      var n: nat :| n <= MAX_BULK && s == Digits(n);
      CanonicalPrint(n);
    }
  }

  /** A count line that can be read, at the front of a text. */
  lemma CountFound(n: nat, lf: byte, t: bytes)
    requires n <= MAX_BULK
    ensures var s := CountText(n, lf) + t; var i := 1 + |Digits(n)|;
      FindCr(s) == Some(i) && i + 2 <= |s| && s[0] == DOLLAR && s[1..i] == Digits(n) && s[i + 2..] == t
  {
    hide FindCr, Digits;
    var s, i := CountText(n, lf) + t, 1 + |Digits(n)|;
    forall j | 0 <= j < i ensures s[j] != CR && s[j] != 0 {
      if j > 0 { assert s[j] == Digits(n)[j - 1]; }
    }
    assert s[i] == CR;
  }

  /** One turn of the argument loop: the count line. */
  lemma CountTurn(c: Client, whole: nat)
    requires c.multibulklen > 0 && c.bulklen == -1
    ensures BadCount(c.buf, whole) ==> ReadArgs(c, whole) == (c.(closing := true), false)
    ensures !BadCount(c.buf, whole) ==>
      match FindCr(c.buf)
      case None => ReadArgs(c, whole) == (c, false)
      case Some(i) =>
        if i + 2 > |c.buf| then ReadArgs(c, whole) == (c, false)
        else
          && 0 < i && c.buf[0] == DOLLAR && IsLength(c.buf[1..i])
          && Canonical(c.buf[1..i]).Some? && 0 <= Canonical(c.buf[1..i]).value <= MAX_BULK
          && ReadArgs(c, whole) == ReadArgs(c.(buf := c.buf[i + 2..], bulklen := Canonical(c.buf[1..i]).value), whole)
  {
    hide Canonical, FindCr, IsLength;
    match FindCr(c.buf)
    case None =>
    case Some(i) => if i > 0 { LengthIs(c.buf[1..i]); }
  }

  /** The state behind an argument that is all there. */
  function Taken(c: Client): Client
    requires c.multibulklen > 0 && 0 <= c.bulklen <= |c.buf| - 2
  {
    c.(buf := c.buf[c.bulklen + 2..], argv := c.argv + [c.buf[..c.bulklen]], bulklen := -1,
       multibulklen := c.multibulklen - 1)
  }

  /** One turn: the bytes of an argument. */
  lemma BulkTurn(c: Client, whole: nat)
    requires c.multibulklen > 0 && c.bulklen >= 0
    ensures ReadArgs(c, whole) ==
      if |c.buf| < c.bulklen + 2 then (c, false)
      else ReadArgs(Taken(c), whole)
  {
  }

  lemma LooseFirst(known: bool, k: Argument, ks: seq<Argument>, rest: bytes)
    ensures Loose(known, [k] + ks) + rest ==
      (if known then [] else CountText(|k.arg|, k.lf)) + (k.arg + k.end + (Loose(false, ks) + rest))
  {
    hide CountText;
    assert ([k] + ks)[1..] == ks;
  }

  /** Behind the count line of the first argument. */
  lemma BehindCount(c: Client, k: Argument, ks: seq<Argument>, rest: bytes)
    requires c.bulklen == -1 && c.multibulklen > 0 && Behind(c, [k] + ks, rest)
    ensures var i := 1 + |Digits(|k.arg|)|;
      && FindCr(c.buf) == Some(i) && i + 2 <= |c.buf| && c.buf[0] == DOLLAR && c.buf[1..i] == Digits(|k.arg|)
      && Behind(c.(buf := c.buf[i + 2..], bulklen := |k.arg|), [k] + ks, rest)
  {
    assert ([k] + ks)[0] == k && ArgumentOk(k);
    hide Digits, FindCr, CountText, Loose;
    LooseFirst(false, k, ks, rest);
    LooseFirst(true, k, ks, rest);
    var t := k.arg + k.end + (Loose(false, ks) + rest);
    assert [] + t == t;
    CountFound(|k.arg|, k.lf, t);
  }

  /** Behind the first argument, whose length is known. */
  lemma BehindBulk(c: Client, k: Argument, ks: seq<Argument>, rest: bytes)
    requires c.bulklen >= 0 && c.multibulklen > 0 && Behind(c, [k] + ks, rest)
    ensures c.bulklen + 2 <= |c.buf| && Behind(Taken(c), ks, rest)
  {
    assert ([k] + ks)[0] == k && ArgumentOk(k);
    forall i | 0 <= i < |ks| ensures ArgumentOk(ks[i]) { assert ([k] + ks)[i + 1] == ks[i]; }
    hide CountText, Loose;
    LooseFirst(true, k, ks, rest);
    var t := k.arg + k.end + (Loose(false, ks) + rest);
    assert c.buf == t && t[|k.arg| + 2..] == Loose(false, ks) + rest;
  }

  /** Behind whole arguments a bad count line closes the connection. */
  lemma {:induction false} BadCloses(c: Client, whole: nat, ks: seq<Argument>, rest: bytes)
    requires c.bulklen >= -1 && Behind(c, ks, rest) && BadCount(rest, whole)
    ensures ReadArgs(c, whole).0.closing
    decreases |ks|, c.bulklen == -1
  {
    hide ReadArgs, BadCount, Digits, ArgumentOk;
    if ks == [] {
      assert Loose(false, ks) + rest == rest;
      CountTurn(c, whole);
    } else {
      hide Loose;
      var k := ks[0];
      assert [k] + ks[1..] == ks;
      hide Behind;
      if c.bulklen == -1 {
        BehindArgs(c, ks, rest);
        BehindCount(c, k, ks[1..], rest);
        var i := 1 + |Digits(|k.arg|)|;
        CountGood(c, whole, |k.arg|);
        BadCloses(c.(buf := c.buf[i + 2..], bulklen := |k.arg|), whole, ks, rest);
      } else {
        BehindArgs(c, ks, rest);
        BehindBulk(c, k, ks[1..], rest);
        BulkTurn(c, whole);
        BadCloses(Taken(c), whole, ks[1..], rest);
      }
    }
  }

  lemma BehindArgs(c: Client, ks: seq<Argument>, rest: bytes)
    requires Behind(c, ks, rest) && ks != []
    ensures c.multibulklen > 0 && |ks[0].arg| <= MAX_BULK
  {
    assert ArgumentOk(ks[0]);
  }

  lemma CountGood(c: Client, whole: nat, n: nat)
    requires c.multibulklen > 0 && c.bulklen == -1 && n <= MAX_BULK
    requires var i := 1 + |Digits(n)|;
      FindCr(c.buf) == Some(i) && i + 2 <= |c.buf| && c.buf[0] == DOLLAR && c.buf[1..i] == Digits(n)
    ensures ReadArgs(c, whole) == ReadArgs(c.(buf := c.buf[|Digits(n)| + 3..], bulklen := n), whole)
  {
    hide FindCr;
    CanonicalPrint(n);
  }

  lemma NoArgumentsLeft(c: Client, whole: nat)
    requires c.bulklen >= -1 && c.multibulklen == 0
    ensures ReadArgs(c, whole) == (c, true)
  {
  }

  lemma CountOfText(s: bytes, i: nat, n: nat)
    requires 0 < i && i + 2 <= |s| && s[0] == DOLLAR && s[i] == CR && s[1..i] == Digits(n)
    ensures s == CountText(n, s[i + 1]) + s[i + 2..]
  {
    hide Digits;
  }

  /** The count line in front of an argument whose length was known. */
  lemma WithCount(c: Client, i: nat, n: nat, ks: seq<Argument>, rest: bytes)
    requires c.bulklen == -1 && 0 < i && i + 2 <= |c.buf| && c.buf[0] == DOLLAR && c.buf[i] == CR
    requires c.buf[1..i] == Digits(n) && n <= MAX_BULK
    requires Behind(c.(buf := c.buf[i + 2..], bulklen := n), ks, rest)
    ensures ks != [] && Behind(c, [ks[0].(lf := c.buf[i + 1])] + ks[1..], rest)
  {
    var k, t := ks[0].(lf := c.buf[i + 1]), ks[1..];
    assert ArgumentOk(ks[0]) && [ks[0]] + t == ks;
    CountOfText(c.buf, i, n);
    hide CountText, Loose;
    LooseFirst(true, ks[0], t, rest);
    LooseFirst(false, k, t, rest);
    var u := k.arg + k.end + (Loose(false, t) + rest);
    assert [] + u == u;
  }

  /** An argument in front of others. */
  lemma WithBulk(c: Client, ks: seq<Argument>, rest: bytes)
    requires c.multibulklen > 0 && 0 <= c.bulklen <= |c.buf| - 2 && c.bulklen <= MAX_BULK
    requires Behind(Taken(c), ks, rest)
    ensures Behind(c, [Argument(c.buf[..c.bulklen], 0, c.buf[c.bulklen..c.bulklen + 2])] + ks, rest)
  {
    var n := c.bulklen;
    var k := Argument(c.buf[..n], 0, c.buf[n..n + 2]);
    hide Loose;
    LooseFirst(true, k, ks, rest);
    var u := k.arg + k.end + (Loose(false, ks) + rest);
    assert [] + u == u && c.buf == u;
  }

  /** Where the connection is closed, there is a bad count line behind whole arguments. */
  lemma {:induction false} ClosedBy(c: Client, whole: nat) returns (ks: seq<Argument>, rest: bytes)
    requires -1 <= c.bulklen <= MAX_BULK && !c.closing && ReadArgs(c, whole).0.closing
    ensures Behind(c, ks, rest) && BadCount(rest, whole)
    decreases c.multibulklen, c.bulklen == -1
  {
    hide ReadArgs, BadCount, Digits, FindCr, Canonical, IsLength, Behind;
    if c.multibulklen == 0 {
      NoArgumentsLeft(c, whole);
      ks, rest := [], [];
    } else if c.bulklen == -1 {
      CountTurn(c, whole);
      if BadCount(c.buf, whole) {
        ks, rest := [], c.buf;
        NoneBehind(c);
      } else {
        var i := FindCr(c.buf).value;
        LengthIs(c.buf[1..i]);
        var n := Canonical(c.buf[1..i]).value;
        ks, rest := ClosedBy(c.(buf := c.buf[i + 2..], bulklen := n), whole);
        WithCount(c, i, n, ks, rest);
        ks := [ks[0].(lf := c.buf[i + 1])] + ks[1..];
      }
    } else {
      BulkTurn(c, whole);
      ks, rest := ClosedBy(Taken(c), whole);
      WithBulk(c, ks, rest);
      ks := [Argument(c.buf[..c.bulklen], 0, c.buf[c.bulklen..c.bulklen + 2])] + ks;
    }
  }

  lemma NoneBehind(c: Client)
    requires c.multibulklen > 0 && c.bulklen == -1
    ensures Behind(c, [], c.buf)
  {
    assert [] + c.buf == c.buf;
  }

  /** Reading arguments, whatever the bytes (a length that has been read is 512M at
      most): the connection is closed if and only if
      behind whole arguments, fewer than announced, there is a bad count line. */
  lemma ArgumentsClose(c: Client, whole: nat)
    requires -1 <= c.bulklen <= MAX_BULK && !c.closing
    ensures ReadArgs(c, whole).0.closing <==> exists ks, rest :: Behind(c, ks, rest) && BadCount(rest, whole)
  {
    hide ReadArgs, Behind, BadCount;
    if ReadArgs(c, whole).0.closing {
      var ks, rest := ClosedBy(c, whole);
    }
    if ks, rest :| Behind(c, ks, rest) && BadCount(rest, whole) {
      BadCloses(c, whole, ks, rest);
    }
  }

  // ---- the header -----------------------------------------------------------------

  /** A number of arguments, or a long long that announces none. */
  ghost predicate IsCount(s: bytes, n: int) {
    LLONG_MIN <= n <= MAX_ARGS && s == Print(n)
  }

  /** A header that cannot be read: 64K have arrived and its '\\r' has not, or what
      stands behind the first byte is no long long, or is more than 1048576. */
  ghost predicate BadHeader(b: bytes) {
    match FindCr(b)
    case None => |b| > INLINE_MAX_SIZE
    case Some(i) => i + 2 <= |b| && (i == 0 || forall n :: !IsCount(b[1..i], n))
  }

  /** Of the `n` arguments that `b` should hold one cannot be read; `whole` bytes are
      in the buffer. */
  ghost predicate BadArgument(b: bytes, n: nat, whole: nat) {
    exists ks, rest :: Behind(Client(b, [], n, -1, Multibulk, false, []), ks, rest) && BadCount(rest, whole)
  }

  /** A header that announces arguments, of which one cannot be read. */
  ghost predicate BadArguments(b: bytes) {
    match FindCr(b)
    case None => false
    case Some(i) =>
      && 0 < i && i + 2 <= |b|
      && exists n :: 1 <= n && IsCount(b[1..i], n) && BadArgument(b[i + 2..], n, |b|)
  }

  lemma CountIs(s: bytes, n: int)
    ensures IsCount(s, n) <==> Canonical(s) == Some(n) && n <= MAX_ARGS
  {
    if IsCount(s, n) { CanonicalPrint(n); }
  }

  lemma NoCountIs(s: bytes)
    ensures (forall n :: !IsCount(s, n)) <==> var v := Canonical(s); v == None || v.value > MAX_ARGS
  {
    hide IsCount, Canonical;
    forall n ensures IsCount(s, n) <==> Canonical(s) == Some(n) && n <= MAX_ARGS { CountIs(s, n); }
    var v := Canonical(s);
    if v.Some? && v.value <= MAX_ARGS { assert IsCount(s, v.value); }
  }

  /** A pass that begins at a header, whatever the bytes: the connection is closed if
      and only if the header cannot be read, or an argument it announces. */
  lemma PassCloses(b: bytes, done: seq<Command>)
    ensures ProcessMultibulk(Client(b, [], 0, -1, Multibulk, false, done)).0.closing <==>
      BadHeader(b) || BadArguments(b)
  {
    hide ReadArgs, FindCr, Canonical, IsCount, Behind, BadCount;
    match FindCr(b)
    case None =>
    case Some(i) =>
      if 0 < i && i + 2 <= |b| {
        NoCountIs(b[1..i]);
        var v := Canonical(b[1..i]);
        forall n ensures IsCount(b[1..i], n) <==> v == Some(n) && n <= MAX_ARGS { CountIs(b[1..i], n); }
        if v.Some? && 1 <= v.value <= MAX_ARGS {
          var c := Client(b[i + 2..], [], v.value, -1, Multibulk, false, done);
          ArgumentsClose(c, |b|);
          forall ks, rest ensures Behind(c.(dispatched := []), ks, rest) <==> Behind(c, ks, rest) {
            BehindDone(c, ks, rest);
          }
        }
      }
  }

  lemma BehindDone(c: Client, ks: seq<Argument>, rest: bytes)
    ensures Behind(c.(dispatched := []), ks, rest) <==> Behind(c, ks, rest)
  {
    hide Loose, ArgumentOk;
  }

  /** A line that does not end closes the connection behind 64K. */
  lemma InlineCloses(b: bytes, done: seq<Command>)
    ensures ProcessInline(Client(b, [], 0, -1, Inline, false, done)).0.closing <==>
      |b| > INLINE_MAX_SIZE && forall n: nat :: !EndsAt(b, n)
  {
    hide FindCrlf, Words;
    FindCrlfIs(b);
  }

  // ---- behind other requests ------------------------------------------------------

  lemma {:induction false} ItemsThen(done: seq<Command>, rs: seq<Item>, z: bytes)
    requires AllOk(rs)
    ensures ProcessInput(Client(EncodeItems(rs) + z, [], 0, -1, Unknown, false, done)) ==
            ProcessInput(Client(z, [], 0, -1, Unknown, false, TakeAll(done, rs)))
    decreases |rs|
  {
    hide ProcessInput, Encode, ItemOk, Take;
    if rs == [] {
      assert EncodeItems(rs) + z == z;
    } else {
      var r, t := rs[0], EncodeItems(rs[1..]) + z;
      var x := EncodeItems(rs) + z;
      assert x == Encode(r) + t && x[|Encode(r)|..] == t;
      Begun(done, r, x, t);
      ItemsThen(Take(done, r), rs[1..], z);
    }
  }

  /** Requests, and behind them a multi bulk request that cannot be read: the requests
      are dispatched, nothing else is, and the connection is closed. */
  lemma ErrorCloses(rs: seq<Item>, z: bytes)
    requires AllOk(rs) && z != [] && z[0] == STAR && (BadHeader(z) || BadArguments(z))
    ensures var r := Feed(FRESH_CLIENT, EncodeItems(rs) + z);
      r.closing && r.dispatched == TakeAll([], rs)
  {
    hide ProcessMultibulk, ProcessInput, BadHeader, BadArguments, EncodeItems, AllOk, TakeAll;
    ItemsThen([], rs, z);
    var c := Client(z, [], 0, -1, Unknown, false, TakeAll([], rs));
    FirstPass(c);
    OnePass(c.(req := Multibulk));
    PassCloses(z, c.dispatched);
    ClosingFails(c.(req := Multibulk));
    assert [] + (EncodeItems(rs) + z) == EncodeItems(rs) + z;
  }

  /** A pass that closes the connection has read no request. */
  lemma ClosingFails(c: Client)
    requires c.bulklen == -1 && !c.closing && c.multibulklen == 0 && ProcessMultibulk(c).0.closing
    ensures !ProcessMultibulk(c).1
  {
    hide ReadArgs, FindCr, Canonical;
    match FindCr(c.buf)
    case None =>
    case Some(i) =>
      if 0 < i && i + 2 <= |c.buf| {
        var v := Canonical(c.buf[1..i]);
        if v.Some? && 1 <= v.value <= MAX_ARGS {
          ClosingStops(c.(buf := c.buf[i + 2..], multibulklen := v.value), |c.buf|);
        }
      }
  }

  lemma {:induction false} ClosingStops(c: Client, whole: nat)
    requires c.bulklen >= -1 && !c.closing && ReadArgs(c, whole).0.closing
    ensures !ReadArgs(c, whole).1
    decreases c.multibulklen, c.bulklen == -1
  {
    hide ReadArgs, BadCount, FindCr, Canonical, IsLength;
    if c.multibulklen == 0 {
      NoArgumentsLeft(c, whole);
    } else if c.bulklen == -1 {
      CountTurn(c, whole);
      if !BadCount(c.buf, whole) {
        var i := FindCr(c.buf).value;
        ClosingStops(c.(buf := c.buf[i + 2..], bulklen := Canonical(c.buf[1..i]).value), whole);
      }
    } else {
      BulkTurn(c, whole);
      ClosingStops(Taken(c), whole);
    }
  }
}
