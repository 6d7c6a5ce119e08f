/** networking.c:680-685, 715-949: the client object whose fields the parser updates. */
module Networking {
  import opened Common
  import opened Decimal
  import opened Resp
  import opened NetworkingModel
  import opened NetworkingInline

  /** What reading a count line comes to. */
  lemma CountSplit(c: Client, whole: nat)
    requires c.multibulklen > 0 && c.bulklen == -1
    ensures ReadArgs(c, whole) ==
      match FindCr(c.buf)
      case None => (if whole > INLINE_MAX_SIZE then c.(closing := true) else c, false)
      case Some(i) =>
        if i + 2 > |c.buf| then (c, false)
        else if c.buf[0] != DOLLAR then (c.(closing := true), false)
        else
          var ll := CanonicalLine(c.buf, i);
          if ll == None || ll.value < 0 || ll.value > MAX_BULK then (c.(closing := true), false)
          else ReadArgs(c.(buf := c.buf[i + 2..], bulklen := ll.value), whole)
  {
  }

  class RedisClient {
    var querybuf: bytes
    var argv: Command
    var multibulklen: nat
    var bulklen: int
    var reqtype: Request
    var closeAfterReply: bool
    var dispatched: seq<Command>

    ghost function Now(): Client
      reads this
    {
      Client(querybuf, argv, multibulklen, bulklen, reqtype, closeAfterReply, dispatched)
    }

    /** What the assertions of networking.c:774, 792 and 813 rest on. */
    ghost predicate Valid()
      reads this
    {
      && bulklen >= -1
      && (multibulklen > 0 ==> reqtype == Multibulk)
      && (multibulklen == 0 ==> argv == [] && bulklen == -1)
      && (reqtype == Multibulk && multibulklen == 0 ==> querybuf != [] && querybuf[0] == STAR)
    }

    constructor ()
      ensures Valid() && Now() == FRESH_CLIENT
    {
      querybuf, argv, multibulklen, bulklen := [], [], 0, -1;
      reqtype, closeAfterReply, dispatched := Unknown, false, [];
    }

    /** setProtocolError: closes the connection after the reply and trims the buffer. */
    method SetProtocolError(pos: nat)
      requires pos <= |querybuf|
      modifies this`closeAfterReply, this`querybuf
      ensures closeAfterReply && querybuf == old(querybuf)[pos..]
    {
      closeAfterReply := true;
      querybuf := querybuf[pos..];
    }

    /** resetClient. */
    method ResetClient()
      modifies this
      ensures Now() == Reset(old(Now()))
    {
      argv, reqtype, multibulklen, bulklen := [], Unknown, 0, -1;
    }

    /** processMultibulkBuffer. */
    method ProcessMultibulkBuffer() returns (ok: bool)
      requires Valid() && reqtype == Multibulk
      modifies this
      ensures (Now(), ok) == ProcessMultibulk(old(Now()))
      ensures ok || Valid()
    {
      var pos := 0;
      var whole := |querybuf|;
      if multibulklen == 0 {
        var newline := FindCr(querybuf);
        if newline == None {
          if |querybuf| > INLINE_MAX_SIZE {
            SetProtocolError(0);
          }
          return false;
        }
        if newline.value + 2 > |querybuf| {
          return false;
        }
        assert querybuf[0] == STAR;
        var ll := String2ll(querybuf[1..newline.value]);
        if ll == None || ll.value > MAX_ARGS {
          SetProtocolError(0);
          return false;
        }
        pos := newline.value + 2;
        if ll.value <= 0 {
          querybuf := querybuf[pos..];
          return true;
        }
        multibulklen := ll.value;
      }
      ok := ReadArguments(pos);
    }

    /** The argument loop, networking.c:813-868. */
    method ReadArguments(start: nat) returns (ok: bool)
      requires start <= |querybuf| && multibulklen > 0 && bulklen >= -1 && reqtype == Multibulk
      modifies this
      ensures (Now(), ok) == ReadArgs(old(Now()).(buf := old(querybuf)[start..]), old(|querybuf|))
      ensures ok || (multibulklen > 0 && bulklen >= -1 && reqtype == Multibulk)
    {
      hide ReadArgs;
      var pos: nat, whole := start, |querybuf|;
      ghost var goal := ReadArgs(At(pos), whole);
      while multibulklen > 0
        invariant pos <= |querybuf| == whole && bulklen >= -1 && reqtype == Multibulk
        invariant goal == ReadArgs(At(pos), whole)
        decreases multibulklen
      {
        var progress;
        pos, progress := ReadArgument(pos);
        if progress == Failed {
          return false;
        }
        if progress == Waiting {
          querybuf := querybuf[pos..];
          return false;
        }
      }
      AllRead(At(pos), whole);
      querybuf := querybuf[pos..];
      return true;
    }

    /** The state as it will be once the buffer is trimmed to `pos`. */
    ghost function At(pos: nat): Client
      requires pos <= |querybuf|
      reads this
    {
      Now().(buf := querybuf[pos..])
    }

    /** One turn of that loop: an argument is read, or its count line and its bytes
        are not all there, or the protocol is violated and the buffer already trimmed. */
    method ReadArgument(start: nat) returns (pos: nat, progress: Progress)
      requires start <= |querybuf| && multibulklen > 0 && bulklen >= -1 && reqtype == Multibulk
      modifies this
      ensures bulklen >= -1 && reqtype == Multibulk
      ensures progress != Failed ==> querybuf == old(querybuf) && pos <= |querybuf|
      ensures multibulklen == old(multibulklen) - (if progress == Done then 1 else 0)
      ensures ReadArgs(old(At(start)), old(|querybuf|)) ==
              (if progress == Done then ReadArgs(At(pos), old(|querybuf|))
               else if progress == Failed then (Now(), false) else (At(pos), false))
    {
      hide ReadArgs;
      pos, progress := start, Done;
      if bulklen == -1 {
        pos, progress := ReadCount(start);
        if progress != Done {
          return;
        }
      }
      ArgumentSplit(At(pos), querybuf, pos, |querybuf|);
      if |querybuf| - pos < bulklen + 2 {
        return pos, Waiting;
      }
      argv := argv + [querybuf[pos..pos + bulklen]];
      pos := pos + bulklen + 2;
      bulklen := -1;
      multibulklen := multibulklen - 1;
      return pos, Done;
    }

    /** The count line of the next argument, networking.c:816-847. */
    method ReadCount(start: nat) returns (pos: nat, progress: Progress)
      requires start <= |querybuf| && multibulklen > 0 && bulklen == -1
      modifies this`querybuf, this`closeAfterReply, this`bulklen
      ensures bulklen >= -1 && (progress == Done ==> bulklen >= 0)
      ensures progress != Failed ==> querybuf == old(querybuf) && pos <= |querybuf|
      ensures ReadArgs(old(At(start)), old(|querybuf|)) ==
              (if progress == Done then ReadArgs(At(pos), old(|querybuf|))
               else if progress == Failed then (Now(), false) else (At(pos), false))
    {
      hide ReadArgs, FindCr, Canonical;
      pos := start;
      ghost var rest := querybuf[pos..];
      CountSplit(At(pos), |querybuf|);
      var newline := FindCr(querybuf[pos..]);
      if newline == None {
        if |querybuf| > INLINE_MAX_SIZE {
          SetProtocolError(0);
        }
        return pos, Waiting;
      }
      if newline.value + 2 > |querybuf| - pos {
        return pos, Waiting;
      }
      if querybuf[pos] != DOLLAR {
        SetProtocolError(pos);
        return pos, Failed;
      }
      assert rest[1..newline.value] == querybuf[pos + 1..pos + newline.value];
      var ll := String2ll(querybuf[pos + 1..pos + newline.value]);
      if ll == None || ll.value < 0 || ll.value > MAX_BULK {
        SetProtocolError(pos);
        return pos, Failed;
      }
      assert rest[newline.value + 2..] == querybuf[pos + newline.value + 2..];
      pos := pos + newline.value + 2;
      bulklen := ll.value;
      return pos, Done;
    }

    /** processInlineBuffer: the words of the first line, when its end has come. */
    method ProcessInlineBuffer() returns (ok: bool)
      modifies this
      ensures (Now(), ok) == ProcessInline(old(Now()))
      ensures ok <==> exists n: nat :: EndsAt(old(querybuf), n)
      ensures forall n: nat :: EndsAt(old(querybuf), n) ==>
                && SplitsInto(old(querybuf)[..n], argv) && querybuf == old(querybuf)[n + 2..]
    {
      var newline := FindCrlf(querybuf);
      FindCrlfIs(querybuf);
      if newline == None {
        if |querybuf| > INLINE_MAX_SIZE {
          SetProtocolError(0);
        }
        return false;
      }
      argv := Words(querybuf[..newline.value], []);
      WordsCharacterised(querybuf[..newline.value], argv);
      EndsOnce(querybuf, newline.value);
      querybuf := querybuf[newline.value + 2..];
      return true;
    }

    /** processInputBuffer; a command is dispatched by recording it. */
    method ProcessInputBuffer()
      requires Valid()
      modifies this
      ensures Valid() && Now() == ProcessInput(old(Now()))
    {
      hide ProcessMultibulk, FindCrlf, Words;
      while |querybuf| > 0
        invariant Valid() && ProcessInput(Now()) == ProcessInput(old(Now()))
        decreases |querybuf|
      {
        if closeAfterReply {
          return;
        }
        if reqtype == Unknown {
          reqtype := if querybuf[0] == STAR then Multibulk else Inline;
        }
        assert Now() == WithRequest(Now());
        var ok;
        if reqtype == Inline {
          ok := ProcessInlineBuffer();
        } else {
          ok := ProcessMultibulkBuffer();
        }
        if !ok {
          return;
        }
        if |argv| != 0 {
          dispatched := dispatched + [argv];
        }
        ResetClient();
      }
    }

    /** readQueryFromClient, for a read that returned `chunk`. */
    method ReadQuery(chunk: bytes)
      requires Valid()
      modifies this
      ensures Valid() && Now() == Feed(old(Now()), chunk)
    {
      querybuf := querybuf + chunk;
      ProcessInputBuffer();
    }
  }

  /** An argument whose length is known: not all there, or read. */
  lemma ArgumentSplit(c: Client, whole: bytes, pos: nat, n: nat)
    requires c.bulklen >= 0 && c.multibulklen > 0 && pos <= |whole| && c.buf == whole[pos..]
    ensures |whole| - pos < c.bulklen + 2 ==> ReadArgs(c, n) == (c, false)
    ensures |whole| - pos >= c.bulklen + 2 ==>
              ReadArgs(c, n) == ReadArgs(c.(buf := whole[pos + c.bulklen + 2..], bulklen := -1,
                                            argv := c.argv + [whole[pos..pos + c.bulklen]],
                                            multibulklen := c.multibulklen - 1), n)
  {
    if |whole| - pos >= c.bulklen + 2 {
      assert c.buf[..c.bulklen] == whole[pos..pos + c.bulklen];
      assert c.buf[c.bulklen + 2..] == whole[pos + c.bulklen + 2..];
    }
  }

  datatype Progress = Done | Waiting | Failed

  lemma AllRead(c: Client, whole: nat)
    requires c.bulklen >= -1 && c.multibulklen == 0
    ensures ReadArgs(c, whole) == (c, true)
  {
  }
}
