/** The append only file as aof.c works on it: the fields of the server, the
    write buffers and the file a rewriting child produces. */
module Aof {
  import opened Common
  import opened Decimal
  import opened Resp
  import opened AofReplay
  import opened AofRewrite
  import opened AofLog
  import opened AofFsync

  // ---- feeding ------------------------------------------------------------

  /** catAppendOnlyExpireAtCommand; `now` is the clock at this moment. */
  method CatExpireAtCommand(dst: bytes, key: bytes, seconds: bytes, now: int) returns (r: bytes)
    ensures r == dst + EncodeCommand([EXPIREAT, key, Print(now + Atol(seconds))])
  {
    var when := Ll2String(now + Atol(seconds));
    r := CatGenericCommand(dst, [EXPIREAT, key, when]);
  }

  /** "*2\r\n$6\r\nSELECT\r\n", which both writers of SELECT lines use (aof.c:213, 421). */
  const SELECT_HEADER: bytes := [42, 50, 13, 10, 36, 54, 13, 10, 83, 69, 76, 69, 67, 84, 13, 10]

  lemma SelectEncoded(n: bytes)
    ensures EncodeCommand([SELECT, n]) == SELECT_HEADER + EncodeBulk(n)
  {
    assert EncodeArgs([SELECT, n]) == EncodeBulk(SELECT) + EncodeBulk(n) by { ArgsOfTwo(SELECT, n); }
    assert Line(STAR, 2) == [42, 50, 13, 10];
    assert Line(DOLLAR, 6) == [36, 54, 13, 10];
  }

  lemma ArgsOfTwo(a: bytes, b: bytes)
    ensures EncodeArgs([a, b]) == EncodeBulk(a) + EncodeBulk(b)
  {
    EncodeArgsAppend([a], b);
    EncodeArgsAppend([], a);
    assert [a] + [b] == [a, b] && [] + [a] == [a];
  }

  lemma EncodeTwo(c: Command, d: Command)
    ensures EncodeAll([c, d]) == EncodeCommand(c) + EncodeCommand(d)
  {
    EncodeAllConcat([c], [d]);
    EncodeOne(c);
    EncodeOne(d);
    assert [c] + [d] == [c, d];
  }

  lemma EncodeNone()
    ensures EncodeAll([]) == []
  {
  }

  /** The SELECT of feedAppendOnlyFile (aof.c:209-216). */
  method CatSelectCommand(dst: bytes, dictid: nat) returns (r: bytes)
    ensures r == dst + EncodeAll([[SELECT, Print(dictid)]])
  {
    hide EncodeCommand, EncodeAll;
    var seldb := Ll2String(dictid);
    var len := Ll2String(|seldb|);
    r := dst + (SELECT_HEADER + ([DOLLAR] + len + CRLF + seldb + CRLF));
    SelectEncoded(seldb);
    EncodeOne([SELECT, seldb]);
  }

  /** The command itself, EXPIRE and SETEX with their deadline (aof.c:218-231). */
  method CatTranslated(dst: bytes, argv: Command, now: int) returns (r: bytes)
    ensures r == dst + EncodeAll(Translate(argv, now))
  {
    hide EncodeCommand, Print, Upper, Atol, EncodeAll;
    var name := Name(argv);
    if name == EXPIRE && |argv| == 3 {
      r := CatExpireAtCommand(dst, argv[1], argv[2], now);
      EncodeOne([EXPIREAT, argv[1], Print(now + Atol(argv[2]))]);
    } else if name == SETEX && |argv| == 4 {
      r := CatGenericCommand(dst, [SET, argv[1], argv[3]]);
      r := CatExpireAtCommand(r, argv[1], argv[2], now);
      EncodeTwo([SET, argv[1], argv[3]], [EXPIREAT, argv[1], Print(now + Atol(argv[2]))]);
    } else {
      r := CatGenericCommand(dst, argv);
      EncodeOne(argv);
    }
  }

  class Server {
    var appendonly: bool
    var appendfd: bool              // whether it is a descriptor
    var file: bytes                 // what the file on disk holds
    var aofbuf: bytes
    var appendseldb: int
    var bgrewritechild: Option<bytes>
    var bgrewritebuf: bytes
    var appendfsync: Fsync
    var flushPostponedStart: int
    var unixtime: int
    var lastfsync: int
    var noFsyncOnRewrite: bool

    ghost function Now(): Core
      reads this
    {
      Core(appendonly, appendfd, file, aofbuf, if appendseldb < 0 then None else Some(appendseldb),
           bgrewritechild, bgrewritebuf)
    }

    /** feedAppendOnlyFile. */
    method FeedAppendOnlyFile(dictid: nat, argv: Command, now: int)
      modifies this`appendseldb, this`aofbuf, this`bgrewritebuf
      ensures Now() == Feed(old(Now()), dictid, argv, now)
    {
      hide EncodeCommand, Translate, EncodeAll;
      var buf: bytes := [];
      ghost var sel: seq<Command> := [];
      EncodeNone();
      if dictid != appendseldb {
        buf := CatSelectCommand(buf, dictid);
        appendseldb := dictid;
        sel := [[SELECT, Print(dictid)]];
      }
      EncodeAllConcat(sel, Translate(argv, now));
      buf := CatTranslated(buf, argv, now);
      aofbuf := aofbuf + buf;
      if bgrewritechild.Some? {
        bgrewritebuf := bgrewritebuf + buf;
      }
    }

    predicate MayPostpone(force: bool, syncing: bool)
      reads this
    {
      appendfsync == EverySec && !force && syncing &&
      (flushPostponedStart == 0 || unixtime - flushPostponedStart < 2)
    }

    function CallOf(force: bool, syncing: bool, saving: bool, nwritten: int): Call
      reads this
    {
      Call(unixtime, appendfsync, aofbuf != [], force, syncing,
           noFsyncOnRewrite && (bgrewritechild.Some? || saving), appendfd && nwritten == |aofbuf|)
    }

    /**
    flushAppendOnlyFile. `syncing` says whether a background fsync is pending and
    `nwritten` is the result of the write. A flush waits for a pending fsync, but
    not once two seconds have passed since it began to wait; it writes all or the
    process ends.
    */
    method FlushAppendOnlyFile(force: bool, syncing: bool, saving: bool, nwritten: int)
      returns (r: Outcome, fsync: bool, job: bool)
      modifies this`file, this`aofbuf, this`flushPostponedStart, this`lastfsync
      ensures (Clock(flushPostponedStart, lastfsync), Answer(r, fsync, job)) ==
                Decide(old(Clock(flushPostponedStart, lastfsync)), old(CallOf(force, syncing, saving, nwritten)))
      ensures r == Nothing <==> old(aofbuf) == []
      ensures r == Postponed <==> old(aofbuf) != [] && old(MayPostpone(force, syncing))
      ensures r == Written ==> Now() == Flushed(old(Now())) && nwritten == |old(aofbuf)| && flushPostponedStart == 0
      ensures r == Died ==> nwritten != |old(aofbuf)| || !appendfd
      ensures r != Written ==> Now() == old(Now())
      ensures r == Postponed ==>
                flushPostponedStart == if old(flushPostponedStart) == 0 then unixtime else old(flushPostponedStart)
      ensures fsync <==>
        r == Written && appendfsync == Always && !(noFsyncOnRewrite && (bgrewritechild.Some? || saving))
      ensures job <==>
        && r == Written && appendfsync == EverySec && !(noFsyncOnRewrite && (bgrewritechild.Some? || saving))
        && unixtime > old(lastfsync) && !syncing
    {
      fsync, job := false, false;
      if |aofbuf| == 0 {
        return Nothing, false, false;
      }
      var syncInProgress := false;
      if appendfsync == EverySec {
        syncInProgress := syncing;
      }
      if appendfsync == EverySec && !force {
        if syncInProgress {
          if flushPostponedStart == 0 {
            flushPostponedStart := unixtime;
            return Postponed, false, false;
          } else if unixtime - flushPostponedStart < 2 {
            return Postponed, false, false;
          }
        }
      }
      flushPostponedStart := 0;
      if nwritten != |aofbuf| || !appendfd {
        return Died, false, false;
      }
      file := file + aofbuf;
      aofbuf := [];
      r := Written;
      if noFsyncOnRewrite && (bgrewritechild.Some? || saving) {
        return;
      }
      if appendfsync == Always {
        fsync := true;
        lastfsync := unixtime;
      } else if appendfsync == EverySec && unixtime > lastfsync {
        if !syncInProgress {
          job := true;
        }
        lastfsync := unixtime;
      }
    }

    /** rewriteAppendOnlyFileBackground. The child works on its copy of the data;
        `done` says whether it will exit with success. */
    method RewriteAppendOnlyFileBackground(dump: Dump, now: int, forks: bool, temp: TempFile)
      returns (ok: bool, done: bool)
      modifies this`appendseldb, this`bgrewritechild, temp
      ensures ok <==> old(bgrewritechild) == None && forks
      ensures ok ==> Now() == Forked(old(Now()), temp.content)
      ensures done <==> ok && temp.opens && |Temp(dump, now)| <= temp.space && temp.renames
      ensures done ==> temp.content == Temp(dump, now)
      ensures !ok ==> Now() == old(Now())
    {
      ok, done := false, false;
      if bgrewritechild != None {
        return;
      }
      if !forks {
        return;
      }
      done := RewriteAppendOnlyFile(dump, now, temp);
      bgrewritechild := Some(temp.content);
      appendseldb := -1;
      ok := true;
    }

    /** backgroundRewriteDoneHandler: how the child ended, and what opening its
        file, writing the differences to it and renaming it came to. */
    method BackgroundRewriteDone(success: bool, opens: bool, nwritten: int, renames: bool) returns (ghost exit: Exit)
      requires bgrewritechild.Some?
      modifies this`file, this`aofbuf, this`appendseldb, this`bgrewritechild, this`bgrewritebuf
      ensures Now() == Reaped(old(Now()), exit)
      ensures exit == Swapped <==> success && opens && nwritten == |old(bgrewritebuf)| && renames
    {
      if success {
        if !opens {
          exit := NotOpened;
        } else {
          if nwritten != |bgrewritebuf| {
            exit := NotWritten;
          } else if !renames {
            exit := NotRenamed;
          } else {
            exit := Swapped;
            file := bgrewritechild.value + bgrewritebuf;
            if appendfd {
              appendseldb := -1;
              aofbuf := [];
            }
          }
        }
      } else {
        exit := Failed;
      }
      bgrewritebuf := [];
      bgrewritechild := None;
    }

    /** stopAppendOnly. */
    method StopAppendOnly(syncing: bool, saving: bool, nwritten: int) returns (died: bool)
      modifies this`appendonly, this`appendfd, this`file, this`aofbuf, this`appendseldb, this`bgrewritechild,
               this`bgrewritebuf, this`flushPostponedStart, this`lastfsync
      ensures died ==> nwritten != |old(aofbuf)| || !old(appendfd)
      ensures !died ==> Now() == Stopped(old(Now()))
      ensures Clock(flushPostponedStart, lastfsync) ==
                Decide(old(Clock(flushPostponedStart, lastfsync)), old(CallOf(true, syncing, saving, nwritten))).0
    {
      var r, _, _ := FlushAppendOnlyFile(true, syncing, saving, nwritten);
      if r == Died {
        return true;
      }
      assert Now() == Flushed(old(Now())) by {
        if r == Nothing { assert old(file) + [] == old(file); }
      }
      appendfd := false;
      appendseldb := -1;
      appendonly := false;
      if bgrewritechild.Some? {
        bgrewritebuf := [];
        bgrewritechild := None;
      }
      return false;
    }

    /** startAppendOnly. The file that is opened keeps what it holds (O_APPEND). */
    method StartAppendOnly(opens: bool, dump: Dump, now: int, forks: bool, temp: TempFile)
      returns (ok: bool, ghost left: Option<bytes>, done: bool)
      modifies this`appendonly, this`appendfd, this`appendseldb, this`bgrewritechild, this`lastfsync, temp
      ensures Now() == Started(old(Now()), opens, left)
      ensures ok <==> opens && forks && old(bgrewritechild) == None
      ensures left.Some? <==> forks
      ensures lastfsync == now
      ensures done <==> ok && temp.opens && |Temp(dump, now)| <= temp.space && temp.renames
      ensures done ==> left == Some(Temp(dump, now))
    {
      ok, done := false, false;
      left := if forks then Some(temp.content) else None;
      appendonly := true;
      lastfsync := now;
      appendfd := opens;
      if !appendfd {
        return;
      }
      ok, done := RewriteAppendOnlyFileBackground(dump, now, forks, temp);
      if !ok {
        appendonly := false;
        return;
      }
      left := Some(temp.content);
    }
  }

  // ---- the rewriting child ------------------------------------------------

  /** The file the child writes: whether it can be opened, and renamed in the end, and
      the room on the disk. */
  class TempFile {
    var content: bytes
    const opens: bool
    const renames: bool
    const space: nat

    constructor (opens: bool, renames: bool, space: nat)
      ensures content == [] && this.opens == opens && this.renames == renames && this.space == space
    {
      this.opens, this.renames, this.space := opens, renames, space;
      content := [];
    }

    method Write(b: bytes) returns (ok: bool)
      modifies this
      ensures ok <==> |old(content)| + |b| <= space
      ensures ok ==> content == old(content) + b
    {
      ok := |content| + |b| <= space;
      if ok {
        content := content + b;
      }
    }

    /** fwriteBulkString and fwriteBulkObject. */
    method WriteBulk(a: bytes) returns (ok: bool)
      modifies this
      ensures ok <==> |old(content)| + |EncodeBulk(a)| <= space
      ensures ok ==> content == old(content) + EncodeBulk(a)
    {
      hide Digits;
      var len := Ll2String(|a|);
      ok := Write([DOLLAR] + len + CRLF);
      if !ok { return; }
      ok := Write(a);
      if !ok { return; }
      ok := Write(CRLF);
      assert ok ==> content == old(content) + EncodeBulk(a);
    }

    /** A command of the rewrite: its fixed header, then the other arguments. */
    method WriteCommand(header: bytes, args: seq<bytes>) returns (ok: bool)
      modifies this
      ensures ok <==> |old(content)| + |header + EncodeArgs(args)| <= space
      ensures ok ==> content == old(content) + (header + EncodeArgs(args))
    {
      hide EncodeBulk;
      ok := Write(header);
      if !ok { return; }
      var j := 0;
      assert args[..0] == [];
      while j < |args|
        invariant j <= |args| && ok
        invariant content == old(content) + (header + EncodeArgs(args[..j])) && |content| <= space
      {
        assert args[..j + 1] == args[..j] + [args[j]];
        EncodeArgsAppend(args[..j], args[j]);
        LongerPrefix(args, j + 1);
        ghost var was := content;
        ok := WriteBulk(args[j]);
        if !ok { return; }
        assert content == old(content) + (header + EncodeArgs(args[..j + 1]));
        j := j + 1;
      }
      assert args[..|args|] == args;
    }
  }

  lemma {:induction false} LongerPrefix(args: seq<bytes>, j: nat)
    requires j <= |args|
    ensures |EncodeArgs(args[..j])| <= |EncodeArgs(args)|
    decreases |args| - j
  {
    hide EncodeBulk;
    if j == |args| {
      assert args[..j] == args;
    } else {
      assert args[..j + 1] == args[..j] + [args[j]];
      EncodeArgsAppend(args[..j], args[j]);
      LongerPrefix(args, j + 1);
    }
  }

  /** The fixed start of a command: the number of arguments and its name. */
  lemma HeaderEncoded(argc: nat, name: bytes, args: seq<bytes>)
    requires argc == 1 + |args|
    ensures EncodeCommand([name] + args) == Line(STAR, argc) + EncodeBulk(name) + EncodeArgs(args)
  {
    hide EncodeBulk, Line, EncodeArgs, EncodeCommand;
    var c := [name] + args;
    assert |c| == argc;
    CommandIs(c);
    ArgsFirst(name, args);
    Regrouped(Line(STAR, argc), EncodeBulk(name), EncodeArgs(args));
  }

  lemma CommandIs(c: Command)
    ensures EncodeCommand(c) == Line(STAR, |c|) + EncodeArgs(c)
  {
  }

  lemma Regrouped(a: bytes, b: bytes, c: bytes)
    ensures a + (b + c) == a + b + c
  {
  }

  lemma ArgsFirst(name: bytes, args: seq<bytes>)
    ensures EncodeArgs([name] + args) == EncodeBulk(name) + EncodeArgs(args)
  {
    hide EncodeBulk;
    assert ([name] + args)[1..] == args;
  }

  /** A command of the rewrite (fwrite of its header, then of the arguments). */
  method WriteNamed(f: TempFile, name: bytes, args: seq<bytes>) returns (ok: bool)
    requires |f.content| <= f.space
    modifies f
    ensures |f.content| <= f.space || !ok
    ensures ok <==> |old(f.content)| + |EncodeCommand([name] + args)| <= f.space
    ensures ok ==> f.content == old(f.content) + EncodeCommand([name] + args)
  {
    hide EncodeBulk, Line, EncodeCommand;
    var n := Ll2String(|args| + 1);
    var len := Ll2String(|name|);
    HeaderEncoded(|args| + 1, name, args);
    HeaderText(|args| + 1, name);
    ok := f.WriteCommand([STAR] + n + CRLF + [DOLLAR] + len + CRLF + name + CRLF, args);
  }

  lemma HeaderText(argc: nat, name: bytes)
    ensures [STAR] + Print(argc) + CRLF + [DOLLAR] + Print(|name|) + CRLF + name + CRLF ==
            Line(STAR, argc) + EncodeBulk(name)
  {
    hide Digits;
  }

  lemma {:induction false} EncodePrefix(a: seq<Command>, b: seq<Command>)
    ensures |EncodeAll(a)| <= |EncodeAll(a + b)|
  {
    EncodeAllConcat(a, b);
  }

  /** Writing one more command of a list. */
  lemma WriteMore(start: bytes, cs: seq<Command>, c: Command)
    ensures start + EncodeAll(cs) + EncodeCommand(c) == start + EncodeAll(cs + [c])
  {
    hide EncodeCommand;
    EncodeAllConcat(cs, [c]);
    EncodeOne(c);
    assert start + EncodeAll(cs) + EncodeCommand(c) == start + (EncodeAll(cs) + EncodeCommand(c));
  }

  /** The commands that rebuild a value, one per element (aof.c:459-614). */
  method WriteValue(f: TempFile, key: bytes, sh: Shape) returns (ok: bool)
    requires |f.content| <= f.space
    modifies f
    ensures ok <==> |old(f.content)| + |EncodeAll(Elements(key, sh, Count(sh)))| <= f.space
    ensures ok ==> f.content == old(f.content) + EncodeAll(Elements(key, sh, Count(sh)))
  {
    hide EncodeAll, EncodeCommand, Count;
    var i := 0;
    ok := true;
    EncodeNone();
    assert old(f.content) + [] == old(f.content);
    while i < Count(sh)
      invariant i <= Count(sh) && ok
      invariant f.content == old(f.content) + EncodeAll(Elements(key, sh, i)) && |f.content| <= f.space
    {
      WriteMore(old(f.content), Elements(key, sh, i), Element(key, sh, i));
      ElementsPrefix(key, sh, i + 1);
      var c := Element(key, sh, i);
      assert [c[0]] + c[1..] == c;
      ok := WriteNamed(f, c[0], c[1..]);
      if !ok { return; }
      i := i + 1;
    }
  }

  lemma {:induction false} ElementsPrefix(key: bytes, sh: Shape, i: nat)
    requires i <= Count(sh)
    ensures |EncodeAll(Elements(key, sh, i))| <= |EncodeAll(Elements(key, sh, Count(sh)))|
    decreases Count(sh) - i
  {
    hide EncodeAll, Element;
    if i < Count(sh) {
      EncodePrefix(Elements(key, sh, i), [Element(key, sh, i)]);
      ElementsPrefix(key, sh, i + 1);
    }
  }

  /** A key: its value, then its deadline unless that has passed. */
  method WriteItem(f: TempFile, item: Item, now: int) returns (ok: bool)
    requires |f.content| <= f.space
    modifies f
    ensures ok <==> |old(f.content)| + |EncodeAll(ItemCommands(item, now))| <= f.space
    ensures ok ==> f.content == old(f.content) + EncodeAll(ItemCommands(item, now))
  {
    hide EncodeAll, EncodeCommand, Elements, Count, Print;
    var value := Elements(item.key, item.shape, Count(item.shape));
    EncodeAllConcat(value, Deadline(item, now));
    EncodeNone();
    ok := WriteValue(f, item.key, item.shape);
    if !ok { return; }
    if item.expire.Some? {
      if item.expire.value < now {
        return;
      }
      var at := Ll2String(item.expire.value);
      EncodeOne([EXPIREAT, item.key, at]);
      assert [EXPIREAT] + [item.key, at] == [EXPIREAT, item.key, at];
      ok := WriteNamed(f, EXPIREAT, [item.key, at]);
    }
  }

  /** The keys of one database. */
  method WriteItems(f: TempFile, items: seq<Item>, now: int) returns (ok: bool)
    requires |f.content| <= f.space
    modifies f
    ensures ok <==> |old(f.content)| + |EncodeAll(ItemsCommands(items, now))| <= f.space
    ensures ok ==> f.content == old(f.content) + EncodeAll(ItemsCommands(items, now))
  {
    hide EncodeAll, ItemCommands;
    var i := 0;
    ok := true;
    EncodeNone();
    assert old(f.content) + [] == old(f.content);
    while i < |items|
      invariant i <= |items| && ok
      invariant f.content == old(f.content) + EncodeAll(ItemsCommands(items[..i], now)) && |f.content| <= f.space
    {
      assert items[..i + 1][..i] == items[..i];
      EncodeAllConcat(ItemsCommands(items[..i], now), ItemCommands(items[i], now));
      ItemsPrefix(items, i + 1, now);
      ok := WriteItem(f, items[i], now);
      if !ok { return; }
      assert f.content == old(f.content) + EncodeAll(ItemsCommands(items[..i + 1], now));
      i := i + 1;
    }
    assert items[..|items|] == items;
  }

  lemma {:induction false} ItemsPrefix(items: seq<Item>, i: nat, now: int)
    requires i <= |items|
    ensures |EncodeAll(ItemsCommands(items[..i], now))| <= |EncodeAll(ItemsCommands(items, now))|
    decreases |items| - i
  {
    hide EncodeAll, ItemCommands;
    if i == |items| {
      assert items[..i] == items;
    } else {
      assert items[..i + 1][..i] == items[..i];
      EncodePrefix(ItemsCommands(items[..i], now), ItemCommands(items[i], now));
      ItemsPrefix(items, i + 1, now);
    }
  }

  lemma {:induction false} DumpPrefix(dump: Dump, j: nat, now: int)
    requires j <= |dump|
    ensures |EncodeAll(RewriteCommands(dump[..j], now))| <= |EncodeAll(RewriteCommands(dump, now))|
    decreases |dump| - j
  {
    hide EncodeAll, DbCommands;
    if j == |dump| {
      assert dump[..j] == dump;
    } else {
      assert dump[..j + 1][..j] == dump[..j];
      EncodePrefix(RewriteCommands(dump[..j], now), DbCommands(j, dump[j], now));
      DumpPrefix(dump, j + 1, now);
    }
  }

  /** One database: nothing if it is empty, else a SELECT and its keys. */
  method WriteDb(f: TempFile, j: nat, items: seq<Item>, now: int) returns (ok: bool)
    requires |f.content| <= f.space
    modifies f
    ensures ok <==> |old(f.content)| + |EncodeAll(DbCommands(j, items, now))| <= f.space
    ensures ok ==> f.content == old(f.content) + EncodeAll(DbCommands(j, items, now))
  {
    hide EncodeAll, EncodeCommand, ItemsCommands, Print;
    EncodeNone();
    if |items| == 0 {
      return true;
    }
    var n := Ll2String(j);
    EncodeOne([SELECT, n]);
    EncodeAllConcat([[SELECT, n]], ItemsCommands(items, now));
    assert [SELECT] + [n] == [SELECT, n];
    ok := WriteNamed(f, SELECT, [n]);
    if !ok { return; }
    ok := WriteItems(f, items, now);
  }

  /** rewriteAppendOnlyFile. It succeeds when the file can be opened, the disk has room
      for the whole log, and the file can be renamed, and then it holds the log. */
  method RewriteAppendOnlyFile(dump: Dump, now: int, f: TempFile) returns (ok: bool)
    modifies f
    ensures ok <==> f.opens && |Temp(dump, now)| <= f.space && f.renames
    ensures ok ==> f.content == Temp(dump, now)
  {
    hide EncodeAll, DbCommands;
    if !f.opens {
      return false;
    }
    f.content := [];
    var j := 0;
    ok := true;
    EncodeNone();
    while j < |dump|
      invariant j <= |dump| && ok
      invariant f.content == EncodeAll(RewriteCommands(dump[..j], now)) && |f.content| <= f.space
    {
      assert dump[..j + 1][..j] == dump[..j];
      EncodeAllConcat(RewriteCommands(dump[..j], now), DbCommands(j, dump[j], now));
      DumpPrefix(dump, j + 1, now);
      ok := WriteDb(f, j, dump[j], now);
      if !ok { return; }
      assert f.content == EncodeAll(RewriteCommands(dump[..j + 1], now));
      j := j + 1;
    }
    assert dump[..|dump|] == dump;
    ok := f.renames;
  }
}
