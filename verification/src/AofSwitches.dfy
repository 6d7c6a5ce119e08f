/**
Which of its states the append only file is in after a run, told from the events
alone; where its bytes move; and what a deadline does when a client sets it
(aof.c:20-58, 664-719, 745-877, db.c:528-568).
*/
module AofSwitches {
  import opened Common
  import opened Decimal
  import opened Resp
  import opened AofReplay
  import opened AofLog

  // ---- on, open, rewriting ----------------------------------------------------

  /** A child is rewriting the log. */
  predicate Rewriting(es: seq<Event>) {
    if es == [] then false
    else
      var p, e := es[..|es| - 1], es[|es| - 1];
      match e
      case Fork(_, _) => true
      case TurnOn(canOpen, forks, _, _) => Rewriting(p) || (canOpen && forks)
      case ChildExit(_) => false
      case TurnOff => false
      case _ => Rewriting(p)
  }

  /** The log is on: switching it on fails if the file opens and no child can be forked
      because one is there or the system refuses. */
  predicate On(first: bool, es: seq<Event>) {
    if es == [] then first
    else
      var p, e := es[..|es| - 1], es[|es| - 1];
      match e
      case TurnOff => false
      case TurnOn(canOpen, forks, _, _) => canOpen ==> forks && !Rewriting(p)
      case _ => On(first, p)
  }

  /** The number of its descriptor is set. */
  predicate Opened(first: bool, es: seq<Event>) {
    if es == [] then first
    else
      var p, e := es[..|es| - 1], es[|es| - 1];
      match e
      case TurnOff => false
      case TurnOn(canOpen, _, _, _) => canOpen
      case _ => Opened(first, p)
  }

  predicate Agree(w: World, first: bool, es: seq<Event>) {
    w.core.on == On(first, es) && w.core.open == Opened(first, es) && w.core.child.Some? == Rewriting(es)
  }

  lemma NextAgrees(apply: Effect, dbnum: nat, w: World, first: bool, p: seq<Event>, e: Event)
    requires Agree(w, first, p) && Possible(dbnum, w, e)
    ensures Agree(Next(apply, w, e), first, p + [e])
  {
    hide Temp, Live, AsRun, Snapshot, FeedCommands, EncodeAll, Fits, Control, Relative;
    var es := p + [e];
    assert es[..|p|] == p && es[|p|] == e;
  }

  lemma {:induction false} RunAgrees(apply: Effect, dbnum: nat, w: World, first: bool, p: seq<Event>, es: seq<Event>)
    requires Agree(w, first, p) && PossibleRun(apply, dbnum, w, es)
    ensures Agree(Run(apply, dbnum, w, es), first, p + es)
    decreases |es|
  {
    hide Agree, Next, Snapshot;
    if es == [] {
      assert p + es == p;
    } else {
      NextAgrees(apply, dbnum, w, first, p, es[0]);
      RunAgrees(apply, dbnum, Next(apply, w, es[0]), first, p + [es[0]], es[1..]);
      assert p + [es[0]] + es[1..] == p + es;
    }
  }

  /** After any run the log is on, has a descriptor and is being rewritten exactly as the
      events say. */
  lemma SwitchStates(apply: Effect, dbnum: nat, file: bytes, data: Dataset, on: bool, es: seq<Event>)
    requires PossibleRun(apply, dbnum, Booted(file, data, on), es)
    ensures var core := Run(apply, dbnum, Booted(file, data, on), es).core;
      && (core.on <==> On(on, es)) && (core.open <==> Opened(on, es)) && (core.child.Some? <==> Rewriting(es))
  {
    hide Next, Possible;
    RunAgrees(apply, dbnum, Booted(file, data, on), on, [], es);
    assert [] + es == es;
  }

  // ---- where the bytes go -----------------------------------------------------

  /** A flush, and switching off, move the buffer to the file; a rewrite that succeeds
      replaces the file by what the child left and the differences, and drops the buffer
      if there is a descriptor; nothing else touches the file, or takes from the buffer. */
  lemma BytesMove(apply: Effect, dbnum: nat, w: World, e: Event)
    requires Possible(dbnum, w, e)
    ensures var was, core := w.core, Next(apply, w, e).core;
      if e.Flush? || e.TurnOff? then core.file == was.file + was.aofbuf && core.aofbuf == []
      else if e == ChildExit(Swapped) then
        core.file == was.child.value + was.diff && core.aofbuf == if was.open then [] else was.aofbuf
      else core.file == was.file && was.aofbuf <= core.aofbuf
    ensures e.ChildExit? || (e.TurnOff? && w.core.child.Some?) ==> Next(apply, w, e).core.diff == []
  {
    hide Temp, Live, AsRun, Snapshot, FeedCommands, EncodeAll, Fits, Control, Relative;
  }

  // ---- deadlines ----------------------------------------------------------------

  /** The deadline a command sets, EXPIRE from now on, EXPIREAT as given. */
  function DeadlineOf(c: Command, now: int): int
    requires |c| == 3
  {
    if Name(c) == EXPIRE then now + Atol(c[2]) else Atol(c[2])
  }

  /** Of a key that is there, EXPIRE and EXPIREAT change the deadline, or remove it when
      the deadline is not in the future; other keys stay, and a key that is not there. */
  lemma ExpireLive(apply: Effect, data: Dataset, db: nat, c: Command, now: int)
    requires |c| == 3 && (Name(c) == EXPIRE || Name(c) == EXPIREAT)
    ensures var k, at, r := (db, c[1]), DeadlineOf(c, now), Live(apply, data, db, c, now);
      && (k in r <==> k in data && at > now)
      && (k in r ==> r[k] == data[k].(expire := Some(at)))
      && (forall l :: l != k ==> (l in r <==> l in data) && (l in data ==> r[l] == data[l]))
  {
    hide Atol, Upper;
    NamesApart();
    assert Name([DEL, c[1]]) == Upper(DEL);
    UpperDel();
  }

  lemma NamesApart()
    ensures EXPIRE != EXPIREAT && DEL != SET && DEL != EXPIRE && DEL != SETEX && EXPIREAT != SET && EXPIREAT != DEL
    ensures EXPIREAT != SETEX && EXPIRE != SETEX
  {
    assert |EXPIRE| == 6 && |EXPIREAT| == 8 && |DEL| == 3 && |SET| == 3 && |SETEX| == 5;
    assert DEL[0] != SET[0];
  }

  lemma UpperDel()
    ensures Upper(DEL) == DEL
  {
  }

  /** SETEX sets value and deadline of its key and leaves the others alone. */
  lemma SetexLive(apply: Effect, data: Dataset, db: nat, c: Command, now: int)
    requires |c| == 4 && Name(c) == SETEX
    ensures Live(apply, data, db, c, now) == data[(db, c[1]) := Entry(Str(c[3]), Some(now + Atol(c[2])))]
  {
    hide Atol, Upper;
    NamesApart();
  }

  // ---- the commands of a rewrite, on any data ------------------------------------

  /** A command that adds an element, with all its arguments. */
  predicate AddsElement(c: Command) {
    || (|c| == 3 && (Name(c) == RPUSH || Name(c) == SADD))
    || (|c| == 4 && (Name(c) == ZADD || Name(c) == HSET))
  }

  /** The value is of the kind the command adds to. */
  predicate OfKind(c: Command, v: Value) {
    match v
    case Str(_) => false
    case List(_) => Name(c) == RPUSH
    case Set(_) => Name(c) == SADD
    case ZSet(_) => Name(c) == ZADD
    case Hash(_) => Name(c) == HSET
  }

  /** Adding an element keeps the deadline of its key, gives a new key none, does nothing to
      a value of another kind, and leaves the other keys alone. */
  lemma ElementKeeps(apply: Effect, data: Dataset, db: nat, c: Command)
    requires AddsElement(c)
    ensures var k, r := (db, c[1]), Perform(apply, data, db, c);
      && k in r && OfKind(c, r[k].value) == (k !in data || OfKind(c, data[k].value))
      && r[k].expire == (if k in data then data[k].expire else None)
      && (k in data && !OfKind(c, data[k].value) ==> r[k] == data[k])
      && (forall l :: l != k ==> (l in r <==> l in data) && (l in data ==> r[l] == data[l]))
  {
    hide Upper;
    NamesDiffer();
  }

  lemma NamesDiffer()
    ensures SET != DEL && SET != RPUSH && SET != SADD && SET != ZADD && SET != HSET
    ensures DEL != RPUSH && DEL != SADD && DEL != ZADD && DEL != HSET
    ensures EXPIREAT != RPUSH && EXPIREAT != SADD && EXPIREAT != ZADD && EXPIREAT != HSET
    ensures RPUSH != SADD && RPUSH != ZADD && RPUSH != HSET && SADD != ZADD && SADD != HSET && ZADD != HSET
  {
    assert |SET| == |DEL| == 3 && |EXPIREAT| == 8 && |RPUSH| == 5 && |SADD| == |ZADD| == |HSET| == 4;
    assert SET[0] == 83 && DEL[0] == 68 && SADD[0] == 83 && ZADD[0] == 90 && HSET[0] == 72;
  }

  /** All other commands act as they do when they are not loaded from a log. */
  lemma OthersApply(apply: Effect, data: Dataset, db: nat, c: Command)
    requires c != [] && !AddsElement(c)
    requires !(Name(c) == SET && |c| == 3) && !(Name(c) == DEL && |c| == 2) && !(Name(c) == EXPIREAT && |c| == 3)
    ensures Perform(apply, data, db, c) == apply(data, db, c)
  {
    hide Upper;
  }
}
