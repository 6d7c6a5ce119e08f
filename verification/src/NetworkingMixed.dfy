/**
Streams in which a client sends multi bulk and inline requests in any order, and count
lines that announce no arguments: what is dispatched does not depend on how the stream
is cut into reads.
*/
module NetworkingMixed {
  import opened Common
  import opened Decimal
  import opened Resp
  import opened NetworkingModel
  import opened NetworkingChunks
  import opened NetworkingInline

  /** A command in the multi bulk format, a line, or a count of arguments that is not
      positive. */
  datatype Item = Bulk(cmd: Command) | Typed(line: bytes) | Empty(count: int)

  predicate ItemOk(r: Item) {
    match r
    case Bulk(cmd) => Sendable(cmd)
    case Typed(line) => Plain(line)
    case Empty(count) => LLONG_MIN <= count <= 0
  }

  predicate AllOk(rs: seq<Item>) {
    forall i :: 0 <= i < |rs| ==> ItemOk(rs[i])
  }

  /** The count line of a multi bulk request, for any number. */
  function CountLine(n: int): (r: bytes)
    ensures |r| == 1 + |Print(n)| + 2
  {
    [STAR] + Print(n) + CRLF
  }

  function Encode(r: Item): (b: bytes)
    ensures |b| >= 2
  {
    match r
    case Bulk(cmd) => EncodeCommand(cmd)
    case Typed(line) => line + CRLF
    case Empty(count) => CountLine(count)
  }

  function EncodeItems(rs: seq<Item>): bytes {
    if rs == [] then [] else Encode(rs[0]) + EncodeItems(rs[1..])
  }

  /** What a request adds to the commands dispatched; a count line without arguments
      adds nothing. */
  function Take(done: seq<Command>, r: Item): seq<Command> {
    match r
    case Bulk(cmd) => done + [cmd]
    case Typed(line) => Dispatch(done, line)
    case Empty(_) => done
  }

  function TakeAll(done: seq<Command>, rs: seq<Item>): seq<Command>
    decreases |rs|
  {
    if rs == [] then done else TakeAll(Take(done, rs[0]), rs[1..])
  }

  // ---- cuts -----------------------------------------------------------------------

  /** The place of a cut in a request; the check of networking.c:723 is made anywhere
      in a line. */
  function PlaceIn(r: Item, p: nat): Place {
    match r
    case Bulk(cmd) => PlaceInCommand(cmd, p)
    case Typed(_) => Place(0, 0, true)
    case Empty(count) => Place(0, 0, p <= |CountLine(count)| - 2)
  }

  function PlaceOfItems(rs: seq<Item>, p: nat): Place
    decreases |rs|
  {
    if rs == [] || p == 0 then Place(0, 0, false)
    else
      var e := |Encode(rs[0])|;
      if p < e then PlaceIn(rs[0], p)
      else
        var r := PlaceOfItems(rs[1..], p - e);
        Place(e + r.start, e + r.used, r.line)
  }

  /** The read of `n` bytes after `seen` runs into one of the two size checks. */
  predicate ItemsTrip(rs: seq<Item>, seen: nat, n: nat) {
    var before, after := PlaceOfItems(rs, seen), PlaceOfItems(rs, seen + n);
    var from := if before.used > after.start then before.used else after.start;
    after.line && seen + n > from + INLINE_MAX_SIZE
  }

  /** The client inside a request. */
  function Inside(done: seq<Command>, r: Item, p: nat): (c: Client)
    requires p < |Encode(r)|
    ensures c.bulklen >= -1 && !c.closing && c.dispatched == done
  {
    match r
    case Bulk(cmd) => InCommand(done, cmd, p)
    case Typed(line) => Client((line + CRLF)[..p], [], 0, -1, Inline, false, done)
    case Empty(count) => Client(CountLine(count)[..p], [], 0, -1, Multibulk, false, done)
  }

  /** The client after the first `p` bytes of the stream. */
  function ItemsAt(done: seq<Command>, rs: seq<Item>, p: nat): (c: Client)
    requires p <= |EncodeItems(rs)|
    ensures c.bulklen >= -1 && !c.closing
    decreases |rs|
  {
    if rs == [] || p == 0 then Between(done)
    else
      var e := |Encode(rs[0])|;
      if p < e then Inside(done, rs[0], p) else ItemsAt(Take(done, rs[0]), rs[1..], p - e)
  }

  // ---- one request ----------------------------------------------------------------

  lemma Held(done: seq<Command>, r: Item, p: nat)
    requires p < |Encode(r)|
    ensures |Inside(done, r, p).buf| == p - PlaceIn(r, p).used && PlaceIn(r, p).start == 0
  {
    if r.Bulk? { HeldInCommand(done, r.cmd, p); }
  }

  /** The bytes of a number are neither '\\r' nor NUL. */
  lemma NumberBytes(n: int)
    ensures forall i :: 0 <= i < |Print(n)| ==> Print(n)[i] != CR && Print(n)[i] != 0
  {
    hide Digits;
    var d := Digits(if n < 0 then -n else n);
    forall i | 0 <= i < |Print(n)| ensures Print(n)[i] != CR && Print(n)[i] != 0 {
      if n < 0 && i > 0 { assert Print(n)[i] == d[i - 1]; }
    }
  }

  /** The first '\\r' of a count line, or of what there is of it. */
  lemma CountLineEnd(n: int, s: bytes, t: bytes)
    requires s <= CountLine(n) + t
    ensures FindCr(s) == if |s| <= 1 + |Print(n)| then None else Some(1 + |Print(n)|)
    ensures |s| > 1 + |Print(n)| ==> s[1..1 + |Print(n)|] == Print(n)
  {
    hide Print, FindCr;
    NumberBytes(n);
    var k, all := 1 + |Print(n)|, CountLine(n) + t;
    assert s == all[..|s|] && all[1..k] == Print(n);
    forall i | 0 <= i < |s| && i < k ensures s[i] != CR && s[i] != 0 {
      assert s[i] == all[i];
      if i > 0 { assert all[i] == Print(n)[i - 1]; }
    }
    if |s| > k { assert s[k] == all[k] == CR && s[1..k] == all[1..k]; }
  }

  /** A pass over a count line without arguments, or over what there is of it. */
  lemma EmptyPass(c: Client, n: int, t: bytes)
    requires c.multibulklen == 0 && c.bulklen == -1 && !c.closing
    requires LLONG_MIN <= n <= 0 && c.buf != [] && c.buf <= CountLine(n) + t
    ensures var e := |CountLine(n)|;
            ProcessMultibulk(c) ==
            if |c.buf| >= e then (c.(buf := c.buf[e..]), true)
            else (c.(closing := |c.buf| <= e - 2 && |c.buf| > INLINE_MAX_SIZE), false)
    ensures |c.buf| < |CountLine(n)| ==> c.buf == CountLine(n)[..|c.buf|]
  {
    hide Print, ReadArgs;
    CountLineEnd(n, c.buf, t);
    CanonicalPrint(n);
    if |c.buf| < |CountLine(n)| { PrefixHead(c.buf, CountLine(n), t); }
  }

  /** The same for the whole loop. */
  lemma EmptyInput(done: seq<Command>, n: int, x: bytes, t: bytes, req: Request)
    requires LLONG_MIN <= n <= 0 && x != [] && x <= CountLine(n) + t && (req == Unknown || req == Multibulk)
    ensures ProcessInput(Client(x, [], 0, -1, req, false, done)) ==
            if |x| >= |CountLine(n)| then ProcessInput(Client(x[|CountLine(n)|..], [], 0, -1, Unknown, false, done))
            else Client(x, [], 0, -1, Multibulk, |x| <= |CountLine(n)| - 2 && |x| > INLINE_MAX_SIZE, done)
    ensures |x| < |CountLine(n)| ==> x == CountLine(n)[..|x|]
  {
    hide ProcessMultibulk, ProcessInput, Print;
    var st := Client(x, [], 0, -1, req, false, done);
    assert x[0] == (CountLine(n) + t)[0] == STAR;
    if req == Unknown { FirstPass(st); }
    EmptyPass(st.(req := Multibulk), n, t);
    OnePass(st.(req := Multibulk));
  }

  /** A pass over a request from its beginning, or the part of it that is there. */
  lemma Begun(done: seq<Command>, r: Item, x: bytes, t: bytes)
    requires ItemOk(r) && x != [] && x <= Encode(r) + t
    ensures ProcessInput(Client(x, [], 0, -1, Unknown, false, done)) ==
            if |x| >= |Encode(r)| then
              ProcessInput(Client(x[|Encode(r)|..], [], 0, -1, Unknown, false, Take(done, r)))
            else Inside(done, r, |x|).(closing := PlaceIn(r, |x|).line && |x| > INLINE_MAX_SIZE)
  {
    hide ProcessMultibulk, ProcessInput, InCommand, PlaceInCommand, EncodeCommand, FindCrlf, Words, Dispatch, Plain;
    hide CountLine;
    var st := Client(x, [], 0, -1, Unknown, false, done);
    match r
    case Bulk(cmd) =>
      StartsWithStar(cmd, x, t);
      FirstPass(st);
      OnePass(st.(req := Multibulk));
      MultibulkBegun(done, cmd, x, t);
    case Typed(line) =>
      FirstByte(line, t, x);
      LinePass(done, line, x, t, Unknown);
    case Empty(count) => EmptyInput(done, count, x, t, Unknown);
  }

  /** A pass over a line, or over what there is of it. */
  lemma LinePass(done: seq<Command>, line: bytes, x: bytes, t: bytes, req: Request)
    requires Plain(line) && x != [] && x <= line + CRLF + t
    requires req == Inline || (req == Unknown && x[0] != STAR)
    ensures ProcessInput(Client(x, [], 0, -1, req, false, done)) ==
            if |x| >= |line| + 2 then
              ProcessInput(Client(x[|line| + 2..], [], 0, -1, Unknown, false, Dispatch(done, line)))
            else Client(x, [], 0, -1, Inline, |x| > INLINE_MAX_SIZE, done)
    ensures |x| < |line| + 2 ==> x == (line + CRLF)[..|x|]
  {
    hide ProcessInput, FindCrlf, Words, Dispatch, Plain;
    InlinePass(Client(x, [], 0, -1, req, false, done));
    if |x| < |line| + 2 {
      PrefixHead(x, line + CRLF, t);
      NoLineEnd(line, |x|);
    } else {
      PrefixTail(x, line + CRLF, t);
      assert x == line + CRLF + x[|line| + 2..];
      LineEnd(line, x[|line| + 2..]);
      assert x[..|line|] == line;
    }
  }

  /** The same when the pass begins inside the request, and something has been read. */
  lemma Resumed(done: seq<Command>, r: Item, p: nat, y: bytes, t: bytes)
    requires ItemOk(r) && 0 < p < |Encode(r)| && Encode(r)[..p] + y <= Encode(r) + t
    requires Inside(done, r, p).buf + y != []
    ensures var st, x := Inside(done, r, p), Encode(r)[..p] + y;
            ProcessInput(st.(buf := st.buf + y)) ==
            if |x| >= |Encode(r)| then
              ProcessInput(Client(x[|Encode(r)|..], [], 0, -1, Unknown, false, Take(done, r)))
            else Inside(done, r, |x|).(closing := PlaceIn(r, |x|).line && |st.buf| + |y| > INLINE_MAX_SIZE)
  {
    hide ProcessMultibulk, ProcessInput, InCommand, PlaceInCommand, EncodeCommand, FindCrlf, Words, Dispatch, Plain;
    hide CountLine;
    var st := Inside(done, r, p);
    match r
    case Bulk(cmd) =>
      MultibulkResumed(done, cmd, p, y, t);
      OnePass(st.(buf := st.buf + y));
    case Typed(line) =>
      LinePass(done, line, (line + CRLF)[..p] + y, t, Inline);
    case Empty(count) => EmptyInput(done, count, CountLine(count)[..p] + y, t, Multibulk);
  }

  // ---- the whole stream -------------------------------------------------------------

  /** A part of the stream from the start of a request. */
  lemma {:induction false} ItemsFromStart(done: seq<Command>, rs: seq<Item>, x: bytes)
    requires AllOk(rs) && x <= EncodeItems(rs)
    ensures var w := PlaceOfItems(rs, |x|);
            ProcessInput(Client(x, [], 0, -1, Unknown, false, done)) ==
            ItemsAt(done, rs, |x|).(closing := w.line && |x| > w.start + INLINE_MAX_SIZE)
    decreases |rs|
  {
    hide ProcessInput, Inside, PlaceIn, Encode, ItemOk;
    if x == [] {
      NothingToDo(Client(x, [], 0, -1, Unknown, false, done));
    } else {
      var r, rest := rs[0], EncodeItems(rs[1..]);
      assert EncodeItems(rs) == Encode(r) + rest;
      Begun(done, r, x, rest);
      if |x| >= |Encode(r)| {
        PrefixTail(x, Encode(r), rest);
        ItemsFromStart(Take(done, r), rs[1..], x[|Encode(r)|..]);
      } else {
        Held(done, r, |x|);
      }
    }
  }

  /** One read moves the client from one cut to the next. */
  lemma {:induction false} ItemsFeed(done: seq<Command>, rs: seq<Item>, p: nat, y: bytes)
    requires AllOk(rs) && p <= |EncodeItems(rs)| && EncodeItems(rs)[..p] + y <= EncodeItems(rs)
    ensures Feed(ItemsAt(done, rs, p), y) == ItemsAt(done, rs, p + |y|).(closing := ItemsTrip(rs, p, |y|))
    decreases |rs|
  {
    hide ProcessInput, Inside, PlaceIn, Encode, ItemOk;
    var all := EncodeItems(rs);
    if rs == [] || p == 0 {
      assert all[..p] + y == y && [] + y == y;
      ItemsFromStart(done, rs, y);
    } else {
      var r, rest := rs[0], EncodeItems(rs[1..]);
      assert all == Encode(r) + rest && all + [] == all && rest + [] == rest;
      if p < |Encode(r)| {
        FeedInside(done, rs, p, y);
      } else {
        SkipHead(Encode(r), rest, p, y, []);
        ItemsFeed(Take(done, r), rs[1..], p - |Encode(r)|, y);
      }
    }
  }

  lemma FeedInside(done: seq<Command>, rs: seq<Item>, p: nat, y: bytes)
    requires AllOk(rs) && rs != [] && 0 < p < |Encode(rs[0])|
    requires EncodeItems(rs)[..p] + y <= EncodeItems(rs)
    ensures Feed(ItemsAt(done, rs, p), y) == ItemsAt(done, rs, p + |y|).(closing := ItemsTrip(rs, p, |y|))
  {
    hide ProcessInput, Inside, PlaceIn, Encode, ItemOk;
    var r, rest := rs[0], EncodeItems(rs[1..]);
    var e, st := Encode(r), Inside(done, r, p);
    var x := e[..p] + y;
    assert EncodeItems(rs) == e + rest && EncodeItems(rs)[..p] == e[..p];
    Held(done, r, p);
    if st.buf + y == [] {
      assert y == [] && st.buf + y == st.buf;
      NothingToDo(st);
    } else {
      Resumed(done, r, p, y, rest);
      if |x| >= |e| {
        PrefixTail(x, e, rest);
        ItemsFromStart(Take(done, r), rs[1..], x[|e|..]);
      } else {
        Held(done, r, |x|);
      }
    }
  }

  /** Some read of the list, the first of which comes after `p` bytes, trips a check. */
  ghost predicate SomeItemsTrip(rs: seq<Item>, p: nat, chunks: seq<bytes>)
    decreases |chunks|
  {
    chunks != [] && (ItemsTrip(rs, p, |chunks[0]|) || SomeItemsTrip(rs, p + |chunks[0]|, chunks[1..]))
  }

  /** How many bytes have arrived when a check is tripped, or else at the end. */
  ghost function ItemBytes(rs: seq<Item>, p: nat, chunks: seq<bytes>): (n: nat)
    ensures p <= n <= p + |Flatten(chunks)|
    decreases |chunks|
  {
    if chunks == [] then p
    else if ItemsTrip(rs, p, |chunks[0]|) then p + |chunks[0]|
    else ItemBytes(rs, p + |chunks[0]|, chunks[1..])
  }

  /** How many requests of the list are complete after `p` bytes. */
  function Whole(rs: seq<Item>, p: nat): (n: nat)
    ensures n <= |rs|
    decreases |rs|
  {
    if rs == [] || p < |Encode(rs[0])| then 0 else 1 + Whole(rs[1..], p - |Encode(rs[0])|)
  }

  lemma {:induction false} TakenAt(done: seq<Command>, rs: seq<Item>, p: nat)
    requires p <= |EncodeItems(rs)|
    ensures ItemsAt(done, rs, p).dispatched == TakeAll(done, rs[..Whole(rs, p)])
    decreases |rs|
  {
    if rs != [] && p >= |Encode(rs[0])| {
      var rest := p - |Encode(rs[0])|;
      TakenAt(Take(done, rs[0]), rs[1..], rest);
      assert rs[..Whole(rs, p)][1..] == rs[1..][..Whole(rs[1..], rest)];
    }
  }

  lemma {:induction false} ItemsEnd(done: seq<Command>, rs: seq<Item>)
    ensures ItemsAt(done, rs, |EncodeItems(rs)|) == Between(TakeAll(done, rs))
    decreases |rs|
  {
    if rs != [] { ItemsEnd(Take(done, rs[0]), rs[1..]); }
  }

  lemma {:induction false} ItemsFeedAll(rs: seq<Item>, p: nat, chunks: seq<bytes>)
    requires AllOk(rs) && p <= |EncodeItems(rs)| && EncodeItems(rs)[..p] + Flatten(chunks) == EncodeItems(rs)
    ensures var r := FeedAll(ItemsAt([], rs, p), chunks);
            && (if SomeItemsTrip(rs, p, chunks) then r.closing else r == ItemsAt([], rs, |EncodeItems(rs)|))
            && r.dispatched == TakeAll([], rs[..Whole(rs, ItemBytes(rs, p, chunks))])
    decreases |chunks|
  {
    hide Feed, ItemsTrip, ItemsAt, EncodeItems, Whole, AllOk, TakeAll;
    var all := EncodeItems(rs);
    if chunks == [] {
      assert all[..p] + [] == all[..p];
      ItemsFeed([], rs, p, []);
      TakenAt([], rs, p);
    } else {
      var y, rest := chunks[0], Flatten(chunks[1..]);
      assert all[..p] + (y + rest) == all[..p] + y + rest;
      ItemsFeed([], rs, p, y);
      assert all[..p + |y|] == all[..p] + y;
      if ItemsTrip(rs, p, |y|) {
        TakenAt([], rs, p + |y|);
        ClosedStays(Feed(ItemsAt([], rs, p), y), chunks[1..]);
      } else {
        ItemsFeedAll(rs, p + |y|, chunks[1..]);
      }
    }
  }

  /**
  However the stream of a list of requests, multi bulk and inline in any order and with
  count lines that announce no arguments among them, is cut into reads: the client ends
  with the commands and the words of the lines dispatched, in order, as if those count
  lines were not there, its buffer empty and its state reset -- unless some read trips a size
  check, and then the connection is closed instead. Either way exactly the requests
  that were complete by then have been dispatched.
  */
  lemma {:induction false} MixedIndependent(rs: seq<Item>, chunks: seq<bytes>)
    requires AllOk(rs) && Flatten(chunks) == EncodeItems(rs)
    ensures FeedAll(FRESH_CLIENT, chunks) == FRESH_CLIENT.(dispatched := TakeAll([], rs))
            <==> !SomeItemsTrip(rs, 0, chunks)
    ensures FeedAll(FRESH_CLIENT, chunks).closing <==> SomeItemsTrip(rs, 0, chunks)
    ensures FeedAll(FRESH_CLIENT, chunks).dispatched == TakeAll([], rs[..Whole(rs, ItemBytes(rs, 0, chunks))])
  {
    assert EncodeItems(rs)[..0] + Flatten(chunks) == EncodeItems(rs);
    ItemsFeedAll(rs, 0, chunks);
    ItemsEnd([], rs);
  }

  // ---- lines alone --------------------------------------------------------------------

  function AllTyped(lines: seq<bytes>): (rs: seq<Item>)
    ensures |rs| == |lines| && forall i :: 0 <= i < |rs| ==> rs[i] == Typed(lines[i])
  {
    seq(|lines|, i requires 0 <= i < |lines| => Typed(lines[i]))
  }

  /** A read that ends after `p` bytes ends more than 64K inside a line. */
  predicate TooLong(lines: seq<bytes>, p: nat)
    decreases |lines|
  {
    lines != [] &&
    (if p < |lines[0]| + 2 then p > INLINE_MAX_SIZE else TooLong(lines[1..], p - (|lines[0]| + 2)))
  }

  lemma {:induction false} LinePlace(lines: seq<bytes>, p: nat, n: nat)
    ensures var w, v := PlaceOfItems(AllTyped(lines), p), PlaceOfItems(AllTyped(lines), p + n);
      && w.used == w.start <= v.start && (TooLong(lines, p) <==> w.line && p > w.start + INLINE_MAX_SIZE)
    decreases |lines|
  {
    if lines != [] && p >= |lines[0]| + 2 {
      assert AllTyped(lines)[1..] == AllTyped(lines[1..]);
      LinePlace(lines[1..], p - (|lines[0]| + 2), n);
    }
  }

  /** Some read of the list, the first of which comes after `p` bytes, ends too far
      inside a line. */
  ghost predicate SomeTooLong(lines: seq<bytes>, p: nat, chunks: seq<bytes>)
    decreases |chunks|
  {
    chunks != [] && (TooLong(lines, p + |chunks[0]|) || SomeTooLong(lines, p + |chunks[0]|, chunks[1..]))
  }

  lemma {:induction false} TypedTrips(lines: seq<bytes>, p: nat, chunks: seq<bytes>)
    ensures SomeItemsTrip(AllTyped(lines), p, chunks) <==> SomeTooLong(lines, p, chunks)
    decreases |chunks|
  {
    hide PlaceOfItems, TooLong, AllTyped;
    if chunks != [] {
      LinePlace(lines, p, |chunks[0]|);
      LinePlace(lines, p + |chunks[0]|, 0);
      TypedTrips(lines, p + |chunks[0]|, chunks[1..]);
    }
  }

  /** For a client that sends lines only: the words of each line are dispatched if and
      only if no read ends more than 64K inside a line. */
  lemma {:induction false} InlineIndependent(lines: seq<bytes>, chunks: seq<bytes>)
    requires (forall i :: 0 <= i < |lines| ==> Plain(lines[i])) && Flatten(chunks) == EncodeItems(AllTyped(lines))
    ensures var r := FeedAll(FRESH_CLIENT, chunks);
      && (r == FRESH_CLIENT.(dispatched := TakeAll([], AllTyped(lines))) <==> !SomeTooLong(lines, 0, chunks))
      && (r.closing <==> SomeTooLong(lines, 0, chunks))
      && r.dispatched ==
         TakeAll([], AllTyped(lines)[..Whole(AllTyped(lines), ItemBytes(AllTyped(lines), 0, chunks))])
  {
    hide Plain, FeedAll, TakeAll;
    var rs := AllTyped(lines);
    MixedIndependent(rs, chunks);
    TypedTrips(lines, 0, chunks);
  }
}
