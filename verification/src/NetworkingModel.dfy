/** networking.c:715-908: what one pass over a client's query buffer does. */
module NetworkingModel {
  import opened Common
  import opened Decimal
  import opened Resp

  const INLINE_MAX_SIZE: nat := 65536
  const MAX_ARGS: nat := 1048576
  const MAX_BULK: nat := 536870912

  datatype Request = Unknown | Inline | Multibulk

  /** The parsing state of a client: the bytes not consumed, the arguments read so
      far, the arguments still to be read, the length of the one being read (-1
      when its count line has not come), the request type, whether the connection
      is to be closed, and the commands handed to processCommand so far. */
  datatype Client = Client(
    buf: bytes, argv: Command, multibulklen: nat, bulklen: int, req: Request, closing: bool,
    dispatched: seq<Command>)

  const FRESH_CLIENT: Client := Client([], [], 0, -1, Unknown, false, [])

  /** The loop of processMultibulkBuffer over the arguments; `whole` is the length
      the buffer had when the pass began. The result's `buf` starts where parsing
      stopped; true stands for REDIS_OK. */
  ghost function ReadArgs(c: Client, whole: nat): (r: (Client, bool))
    requires c.bulklen >= -1
    ensures r.0.dispatched == c.dispatched && r.0.bulklen >= -1 && r.0.req == c.req
    ensures r.1 ==> r.0.multibulklen == 0
    ensures |r.0.buf| <= |c.buf| && (r.1 && c.multibulklen > 0 ==> |r.0.buf| < |c.buf|)
    decreases c.multibulklen, if c.bulklen == -1 then 1 else 0
  {
    if c.multibulklen == 0 then (c, true)
    else if c.bulklen == -1 then
      match FindCr(c.buf)
      case None => (if whole > INLINE_MAX_SIZE then c.(closing := true) else c, false)
      case Some(i) =>
        if i + 2 > |c.buf| then (c, false)
        else if c.buf[0] != DOLLAR then (c.(closing := true), false)
        else
          var ll := CanonicalLine(c.buf, i);
          if ll == None || ll.value < 0 || ll.value > MAX_BULK then (c.(closing := true), false)
          else ReadArgs(c.(buf := c.buf[i + 2..], bulklen := ll.value), whole)
    else if |c.buf| < c.bulklen + 2 then (c, false)
    else
      ReadArgs(c.(buf := c.buf[c.bulklen + 2..], argv := c.argv + [c.buf[..c.bulklen]], bulklen := -1,
                  multibulklen := c.multibulklen - 1), whole)
  }

  /** string2ll on the text between the prefix and the '\\r'. */
  ghost function CanonicalLine(s: bytes, i: nat): Option<int>
    requires i < |s|
  {
    if i == 0 then None else Canonical(s[1..i])
  }

  /** processMultibulkBuffer. */
  ghost function ProcessMultibulk(c: Client): (r: (Client, bool))
    requires c.bulklen >= -1
    ensures r.0.dispatched == c.dispatched && r.0.bulklen >= -1 && r.0.req == c.req
    ensures r.1 ==> r.0.multibulklen == 0
    ensures r.1 ==> |r.0.buf| < |c.buf|
  {
    if c.multibulklen > 0 then ReadArgs(c, |c.buf|)
    else
      match FindCr(c.buf)
      case None => (if |c.buf| > INLINE_MAX_SIZE then c.(closing := true) else c, false)
      case Some(i) =>
        if i + 2 > |c.buf| then (c, false)
        else
          var ll := CanonicalLine(c.buf, i);
          if ll == None || ll.value > MAX_ARGS then (c.(closing := true), false)
          else if ll.value <= 0 then (c.(buf := c.buf[i + 2..]), true)
          else ReadArgs(c.(buf := c.buf[i + 2..], multibulklen := ll.value), |c.buf|)
  }

  /** The first "\r\n" of a C string (strstr). */
  function FindCrlf(s: bytes): (r: Option<nat>)
    ensures r.Some? ==> r.value + 2 <= |s|
  {
    if |s| < 2 || s[0] == 0 then None
    else if s[0] == CR && s[1] == LF then Some(0)
    else match FindCrlf(s[1..])
      case None => None
      case Some(i) => Some(i + 1)
  }

  /** The pieces of a line between spaces that are not empty; `piece` is the one
      being read. */
  function Words(s: bytes, piece: bytes): seq<bytes>
    decreases |s|
  {
    if s == [] then (if piece == [] then [] else [piece])
    else if s[0] == 32 then (if piece == [] then [] else [piece]) + Words(s[1..], [])
    else Words(s[1..], piece + [s[0]])
  }

  /** processInlineBuffer. */
  ghost function ProcessInline(c: Client): (r: (Client, bool))
    ensures r.0.dispatched == c.dispatched && r.0.bulklen == c.bulklen && (r.1 ==> |r.0.buf| < |c.buf|)
  {
    match FindCrlf(c.buf)
    case None => (if |c.buf| > INLINE_MAX_SIZE then c.(closing := true) else c, false)
    case Some(i) => (c.(buf := c.buf[i + 2..], argv := Words(c.buf[..i], [])), true)
  }

  /** resetClient. */
  function Reset(c: Client): Client {
    c.(argv := [], req := Unknown, multibulklen := 0, bulklen := -1)
  }

  /** The type of the request at the head of the buffer (networking.c:883-889). */
  function WithRequest(c: Client): Client
    requires c.buf != []
  {
    if c.req != Unknown then c else c.(req := if c.buf[0] == STAR then Multibulk else Inline)
  }

  /** processInputBuffer, for commands that neither block the client nor close it. */
  ghost function ProcessInput(c: Client): (r: Client)
    requires c.bulklen >= -1
    ensures r.bulklen >= -1
    decreases |c.buf|
  {
    if c.buf == [] || c.closing then c
    else
      var (c', ok) := if WithRequest(c).req == Inline then ProcessInline(WithRequest(c))
                      else ProcessMultibulk(WithRequest(c));
      if !ok then c'
      else if c'.argv == [] then ProcessInput(Reset(c'))
      else ProcessInput(Reset(c'.(dispatched := c'.dispatched + [c'.argv])))
  }

  /** One read from the socket (readQueryFromClient). */
  ghost function Feed(c: Client, chunk: bytes): (r: Client)
    requires c.bulklen >= -1
    ensures r.bulklen >= -1
  {
    ProcessInput(c.(buf := c.buf + chunk))
  }

  ghost function FeedAll(c: Client, chunks: seq<bytes>): (r: Client)
    requires c.bulklen >= -1
    ensures r.bulklen >= -1
    decreases |chunks|
  {
    if chunks == [] then c else FeedAll(Feed(c, chunks[0]), chunks[1..])
  }
}
