/** What holds of every run of clients with MULTI, EXEC, DISCARD, WATCH and UNWATCH. */
module MultiRuns {
  import opened Common
  import opened WatchIndex
  import opened MultiModel

  // ---- the index and the flags over a run -----------------------------------

  ghost predicate ConnOk(conn: Conn) {
    Queueable(conn.queue) && (!conn.multi ==> conn.queue == [])
  }

  ghost predicate Inv(w: World) {
    Tells(w.ix, w.history) && forall c :: c in w.conns ==> ConnOk(w.conns[c])
  }

  /** `w'` has gone through moments in none of which a client asked for a pair. */
  ghost predicate Quiet(w: World, w': World) {
    Tells(w'.ix, w'.history) && forall d :: Free(w.history, d) ==> Free(w'.history, d)
  }

  lemma HappenQuiet(w: World, m: Moment)
    requires Tells(w.ix, w.history) && !m.Watched?
    ensures Quiet(w, Happen(w, m))
  {
    hide Tells, React, Free;
    ReactTells(w.ix, w.history, m);
    forall d ensures Free(w.history, d) ==> Free(Happen(w, m).history, d) { FreeMore(w.history, m, d); }
  }

  lemma {:induction false} TouchAllQuiet(w: World, ks: seq<Pair>)
    requires Tells(w.ix, w.history)
    ensures Quiet(w, TouchAll(w, ks))
    decreases |ks|
  {
    hide Tells, React, Free;
    if ks != [] {
      HappenQuiet(w, Touched(ks[0]));
      TouchAllQuiet(Happen(w, Touched(ks[0])), ks[1..]);
    }
  }

  lemma BasicQuiet(w: World, c: nat, cmd: Cmd)
    requires c in w.conns && Tells(w.ix, w.history)
    ensures Quiet(w, Basic(w, c, cmd))
  {
    hide Tells, React, Free, TouchAll, Counted;
    var w1 := w.(executed := w.executed + [(c, cmd)]);
    match cmd
    case Unwatch => HappenQuiet(w1, Forgot(c));
    case Data(_, touched, _, _) => TouchAllQuiet(w1, touched);
    case Assign(_, touched, _) => TouchAllQuiet(w1, touched);
    case Flush(_, all, present, _, _) =>
      HappenQuiet(w1, FlushedDb(if all then None else Some(w.conns[c].db), present));
    case _ =>
  }

  lemma {:induction false} RunQueueQuiet(w: World, c: nat, q: seq<Cmd>)
    requires c in w.conns && Tells(w.ix, w.history)
    ensures Quiet(w, RunQueue(w, c, q))
    decreases |q|
  {
    hide Tells, Basic, Free;
    if q != [] {
      BasicConns(w, c, q[0]);
      BasicQuiet(w, c, q[0]);
      RunQueueQuiet(Basic(w, c, q[0]), c, q[1..]);
    }
  }

  lemma {:induction false} WatchKeysTells(w: World, c: nat, db: nat, keys: seq<bytes>)
    requires Tells(w.ix, w.history)
    ensures var r := WatchKeys(w, c, db, keys);
      Tells(r.ix, r.history) && r.conns == w.conns && r.executed == w.executed && r.dirty == w.dirty && r.log == w.log
    decreases |keys|
  {
    hide Tells, React;
    if keys != [] {
      ReactTells(w.ix, w.history, Watched(c, (db, keys[0])));
      WatchKeysTells(Happen(w, Watched(c, (db, keys[0]))), c, db, keys[1..]);
    }
  }

  /** Closing a transaction and forgetting its pairs. */
  lemma CloseForget(w: World, c: nat)
    requires c in w.conns && Tells(w.ix, w.history)
    ensures var r := Happen(Closed(w, c), Forgot(c));
      Tells(r.ix, r.history) && Free(r.history, c) && r.conns == Closed(w, c).conns
  {
    hide Tells, React, Free;
    ForgetEarly(w.ix, c);
    ReactTells(w.ix, w.history, Forgot(c));
    FreeMore(w.history, Forgot(c), c);
  }

  /** Clearing the flag after the queue has run changes nothing: nobody can have
      set it since the pairs were forgotten. */
  lemma ClosedFree(w: World, c: nat)
    requires c in w.conns && Tells(w.ix, w.history) && Free(w.history, c)
    ensures Closed(w, c).ix == w.ix
  {
    hide IndexOk, Watches, Holds, Dirtied;
    assert c !in w.ix.dirty;
    assert w.ix.dirty - {c} == w.ix.dirty;
  }

  /** EXEC of a transaction that is not dirty. */
  lemma ExecRuns(w: World, c: nat)
    requires c in w.conns && w.conns[c].multi && c !in w.ix.dirty && Tells(w.ix, w.history)
    ensures var r := ExecStep(w, c);
      && Tells(r.ix, r.history) && Free(r.history, c)
      && r.conns.Keys == w.conns.Keys
      && (forall d :: d in w.conns && d != c ==> r.conns[d] == w.conns[d])
      && !r.conns[c].multi && r.conns[c].queue == []
      && (Queueable(w.conns[c].queue) ==> r.executed == w.executed + Tagged(c, w.conns[c].queue))
  {
    hide Tells, React, Free, RunQueue, Queueable, Tagged;
    var q := w.conns[c].queue;
    var w0 := w.(log := w.log + [Opening(c, w.conns[c].db)]);
    var w1 := Happen(w0, Forgot(c));
    HappenQuiet(w0, Forgot(c));
    FreeMore(w.history, Forgot(c), c);
    RunQueueConns(w1, c, q);
    RunQueueQuiet(w1, c, q);
    ClosedFree(RunQueue(w1, c, q), c);
  }

  /** EXEC of a transaction that is dirty runs nothing. */
  lemma ExecAborts(w: World, c: nat)
    requires c in w.conns && w.conns[c].multi && c in w.ix.dirty && Tells(w.ix, w.history)
    ensures var r := ExecStep(w, c);
      && Tells(r.ix, r.history) && Free(r.history, c)
      && r.conns.Keys == w.conns.Keys
      && (forall d :: d in w.conns && d != c ==> r.conns[d] == w.conns[d])
      && !r.conns[c].multi && r.conns[c].queue == []
      && r.executed == w.executed && r.log == w.log && r.dirty == w.dirty
  {
    hide Tells, React, Free;
    CloseForget(w, c);
  }

  lemma BasicDirty(w: World, c: nat, cmd: Cmd)
    requires c in w.conns
    ensures Basic(w, c, cmd).dirty == Counted(cmd, w.dirty)
  {
    hide React, TouchAll, CInt;
  }

  /** server.dirty after a list of commands. */
  function DirtyAfter(q: seq<Cmd>, dirty: int): int
    decreases |q|
  {
    if q == [] then dirty else DirtyAfter(q[1..], Counted(q[0], dirty))
  }

  lemma {:induction false} RunQueueDirty(w: World, c: nat, q: seq<Cmd>)
    requires c in w.conns
    ensures RunQueue(w, c, q).dirty == DirtyAfter(q, w.dirty)
    decreases |q|
  {
    hide Basic;
    if q != [] {
      BasicConns(w, c, q[0]);
      BasicDirty(w, c, q[0]);
      RunQueueDirty(Basic(w, c, q[0]), c, q[1..]);
    }
  }

  lemma ExecKeeps(w: World, c: nat)
    requires Inv(w) && c in w.conns
    ensures Inv(ExecStep(w, c))
  {
    hide Tells, Queueable, ExecStep;
    if !w.conns[c].multi {
      ExecNotOpen(w, c);
    } else {
      EmptyQueueable();
      if c in w.ix.dirty {
        ExecAborts(w, c);
      } else {
        ExecRuns(w, c);
      }
    }
  }

  lemma ExecNotOpen(w: World, c: nat)
    requires c in w.conns && !w.conns[c].multi
    ensures ExecStep(w, c) == w
  {
  }

  lemma EmptyQueueable()
    ensures Queueable([])
  {
  }

  lemma RequestKeeps(w: World, c: nat, cmd: Cmd)
    requires Inv(w) && c in w.conns
    ensures Inv(Request(w, c, cmd))
  {
    hide Tells, React, Free, ExecStep, Basic, WatchKeys;
    if w.conns[c].multi && !Immediate(cmd) {
    } else {
      match cmd
      case Watch(keys) => WatchKeysTells(w, c, w.conns[c].db, keys);
      case Multi =>
      case Discard => if w.conns[c].multi { CloseForget(w, c); }
      case Exec => ExecKeeps(w, c);
      case _ =>
        BasicQuiet(w, c, cmd);
        BasicConns(w, c, cmd);
    }
  }

  lemma NextKeeps(w: World, e: Event)
    requires Inv(w) && Possible(w, e)
    ensures Inv(Next(w, e))
  {
    hide Tells, React, Request;
    match e
    case Asked(c, cmd) => RequestKeeps(w, c, cmd);
    case Connected(_) =>
    case Gone(c) => ReactTells(w.ix, w.history, Forgot(c));
    case Saved(_) =>
    case Cycle(_) =>
  }

  lemma {:induction false} RunKeeps(w: World, es: seq<Event>)
    requires Inv(w) && PossibleRun(w, es)
    ensures Inv(Run(w, es))
    decreases |es|
  {
    hide Inv, Next, Possible;
    if es != [] {
      NextKeeps(w, es[0]);
      RunKeeps(Next(w, es[0]), es[1..]);
    }
  }

  /** In every state that can be reached, the two lists of the index agree, and a
      client's flag is set exactly when a pair was touched while it watched it. */
  lemma IndexReachable(es: seq<Event>)
    requires PossibleRun(IDLE, es)
    ensures var w := Run(IDLE, es);
      && IndexOk(w.ix)
      && (forall c, k :: Watches(w.ix, c, k) <==> Holds(w.history, c, k))
      && (forall c :: c in w.ix.dirty <==> Dirtied(w.history, c))
  {
    hide Next, Possible, IndexOk, Watches, Holds, Dirtied;
    assert Inv(IDLE) by { TellsFirst(); }
    RunKeeps(IDLE, es);
  }

  // ---- transactions ---------------------------------------------------------

  /** What `c` has sent that a transaction queues. */
  function Sent(c: nat, es: seq<Event>): seq<Cmd>
    decreases |es|
  {
    if es == [] then []
    else if es[0].Asked? && es[0].client == c && !Immediate(es[0].cmd) then [es[0].cmd] + Sent(c, es[1..])
    else Sent(c, es[1..])
  }

  /** No event that ends the transaction of `c`. */
  predicate Open(c: nat, e: Event) {
    e != Asked(c, Exec) && e != Asked(c, Discard) && e != Gone(c)
  }

  lemma ConnStep(w: World, c: nat, e: Event)
    requires Inv(w) && Possible(w, e) && c in w.conns && Open(c, e) && w.conns[c].multi
    ensures var r := Next(w, e);
      && c in r.conns && r.conns[c].multi
      && r.conns[c].queue == w.conns[c].queue + Sent(c, [e])
  {
    hide Tells, React, ExecStep, Basic, WatchKeys, Immediate, Queueable;
    assert [e][1..] == [];
    if e.Asked? && e.client != c {
      OthersKeep(w, c, e.client, e.cmd);
    } else if e.Asked? {
      assert Immediate(e.cmd) <==> e.cmd.Multi? || e.cmd.Watch? by { ImmediateIs(e.cmd); }
    }
  }

  lemma ImmediateIs(cmd: Cmd)
    ensures Immediate(cmd) <==> cmd.Exec? || cmd.Discard? || cmd.Multi? || cmd.Watch?
  {
  }

  /** A request of another client leaves the connection of `c` as it is. */
  lemma OthersKeep(w: World, c: nat, d: nat, cmd: Cmd)
    requires Inv(w) && c in w.conns && d in w.conns && c != d
    ensures var r := Request(w, d, cmd); c in r.conns && r.conns[c] == w.conns[c]
  {
    hide Tells, React, ExecStep, Basic, WatchKeys, Queueable;
    if w.conns[d].multi && !Immediate(cmd) {
    } else {
      match cmd
      case Watch(keys) => WatchKeysTells(w, d, w.conns[d].db, keys);
      case Multi =>
      case Discard =>
      case Exec =>
        if !w.conns[d].multi { ExecNotOpen(w, d); }
        else if d in w.ix.dirty { ExecAborts(w, d); }
        else { ExecRuns(w, d); }
      case _ => BasicConns(w, d, cmd);
    }
  }

  lemma {:induction false} QueueIsSent(w: World, c: nat, es: seq<Event>)
    requires Inv(w) && PossibleRun(w, es) && c in w.conns && w.conns[c].multi
    requires forall i :: 0 <= i < |es| ==> Open(c, es[i])
    ensures var r := Run(w, es);
      && Inv(r) && c in r.conns && r.conns[c].multi
      && r.conns[c].queue == w.conns[c].queue + Sent(c, es)
    decreases |es|
  {
    hide Inv, Next, Possible, Open, Immediate;
    if es == [] {
      assert w.conns[c].queue + [] == w.conns[c].queue;
    } else {
      ConnStep(w, c, es[0]);
      NextKeeps(w, es[0]);
      QueueIsSent(Next(w, es[0]), c, es[1..]);
      SentSplit(c, es);
      var q, first, rest := w.conns[c].queue, Sent(c, [es[0]]), Sent(c, es[1..]);
      assert q + first + rest == q + (first + rest);
    }
  }

  lemma SentSplit(c: nat, es: seq<Event>)
    requires es != []
    ensures Sent(c, es) == Sent(c, [es[0]]) + Sent(c, es[1..])
  {
    assert [es[0]][1..] == [];
  }

  /**
  Optimistic transactions. From any state that can be reached, let `c` send MULTI,
  then anything but EXEC and DISCARD, while the other clients do what they like.
  Its EXEC runs exactly what `c` has sent, in order and in one piece, if no pair
  was touched while `c` watched it, and runs nothing otherwise. Either way `c`
  watches nothing afterwards, and no other connection has changed.
  */
  lemma {:induction false} Transaction(w: World, c: nat, es: seq<Event>)
    requires Inv(w) && c in w.conns && !w.conns[c].multi
    requires PossibleRun(Request(w, c, Multi), es)
    requires forall i :: 0 <= i < |es| ==> Open(c, es[i])
    ensures var w1 := Run(Request(w, c, Multi), es);
      && c in w1.conns
      && var r := Request(w1, c, Exec);
      && r.executed == w1.executed + (if Dirtied(w1.history, c) then [] else Tagged(c, Sent(c, es)))
      && Free(r.history, c) && r.conns.Keys == w1.conns.Keys && !r.conns[c].multi && r.conns[c].queue == []
      && forall d :: d in w1.conns && d != c ==> r.conns[d] == w1.conns[d]
  {
    hide Next, Possible, Open, ExecStep, Tells, Sent, Tagged, Free;
    RequestKeeps(w, c, Multi);
    var w0 := Request(w, c, Multi);
    assert w0.conns[c].multi && w0.conns[c].queue == [];
    QueueIsSent(w0, c, es);
    var w1 := Run(w0, es);
    FlagTells(w1, c);
    assert [] + Sent(c, es) == Sent(c, es);
    if c in w1.ix.dirty {
      ExecAborts(w1, c);
      assert w1.executed + [] == w1.executed;
    } else {
      ExecRuns(w1, c);
    }
  }

  lemma FlagTells(w: World, c: nat)
    requires Tells(w.ix, w.history)
    ensures c in w.ix.dirty <==> Dirtied(w.history, c)
  {
    hide IndexOk, Watches, Holds, Dirtied;
  }

  // ---- brackets in the log --------------------------------------------------

  /** Reading the log with the client whose MULTI is open: no other client's line
      may come in between, and MULTIs do not nest. None if the log breaks this. The
      DELs of expired keys are nobody's. */
  function Read(open: Option<nat>, log: seq<Line>): Option<Option<nat>>
    decreases |log|
  {
    if log == [] then Some(open)
    else match log[0]
      case Opening(c, _) => if open == None then Read(Some(c), log[1..]) else None
      case Plain(c, _, _) => if open == None || open == Some(c) then Read(open, log[1..]) else None
      case Closing(c, _) => if open == Some(c) then Read(None, log[1..]) else None
      case Expired(_, _) => Read(open, log[1..])
  }

  lemma {:induction false} ReadConcat(open: Option<nat>, a: seq<Line>, b: seq<Line>)
    ensures Read(open, a + b) == if Read(open, a) == None then None else Read(Read(open, a).value, b)
    decreases |a|
  {
    if a == [] {
      assert a + b == b;
    } else {
      assert (a + b)[1..] == a[1..] + b && (a + b)[0] == a[0];
      match a[0]
      case Opening(c, _) => ReadConcat(Some(c), a[1..], b);
      case Plain(_, _, _) => ReadConcat(open, a[1..], b);
      case Closing(_, _) => ReadConcat(None, a[1..], b);
      case Expired(_, _) => ReadConcat(open, a[1..], b);
    }
  }

  /** The command raises server.dirty, so it is fed. */
  predicate Counts(cmd: Cmd, dirty: int) {
    Counted(cmd, dirty) > dirty
  }

  /** The lines of a command: the keys it found expired, and itself if it counts. */
  function LinesOf(c: nat, db: nat, cmd: Cmd, dirty: int): seq<Line> {
    (if cmd.Data? then Deletions(cmd.expired) else []) + (if Counts(cmd, dirty) then [Plain(c, db, cmd)] else [])
  }

  /** The lines of a queue, run with the database `db` and the counter at `dirty`. */
  function Lines(c: nat, db: nat, q: seq<Cmd>, dirty: int): seq<Line>
    decreases |q|
  {
    if q == [] then []
    else LinesOf(c, db, q[0], dirty) + Lines(c, DbAfter(q[0], db), q[1..], Counted(q[0], dirty))
  }

  lemma BasicLog(w: World, c: nat, cmd: Cmd)
    requires c in w.conns
    ensures Basic(w, c, cmd).log == w.log + LinesOf(c, w.conns[c].db, cmd, w.dirty)
  {
    hide React, TouchAll, CInt, Deletions;
    if cmd.Data? || cmd.Assign? { TouchAllFrame(w.(executed := w.executed + [(c, cmd)]), cmd.touched); }
    var first := if cmd.Data? then Deletions(cmd.expired) else [];
    var own := [Plain(c, w.conns[c].db, cmd)];
    assert w.log + [] == w.log && w.log + first + own == w.log + (first + own) && first + [] == first;
    assert [] + own == own;
  }

  lemma {:induction false} RunQueueLog(w: World, c: nat, q: seq<Cmd>)
    requires c in w.conns
    ensures RunQueue(w, c, q).log == w.log + Lines(c, w.conns[c].db, q, w.dirty)
    decreases |q|
  {
    hide Basic, LinesOf, DbAfter, Counted;
    var db := w.conns[c].db;
    if q == [] {
      assert w.log + [] == w.log;
    } else {
      BasicConns(w, c, q[0]);
      BasicDirty(w, c, q[0]);
      BasicLog(w, c, q[0]);
      RunQueueLog(Basic(w, c, q[0]), c, q[1..]);
      var first, rest := LinesOf(c, db, q[0], w.dirty), Lines(c, DbAfter(q[0], db), q[1..], Counted(q[0], w.dirty));
      assert w.log + first + rest == w.log + (first + rest);
    }
  }

  /** EXEC counts itself; but some commands set the counter back, and then EXEC may
      not have raised it (multi.c:131, redis.c:1046). */
  predicate Closes(q: seq<Cmd>, dirty: int) {
    DirtyAfter(q, dirty) + 1 > dirty
  }

  /** The lines of a transaction that runs. */
  function Block(c: nat, db: nat, q: seq<Cmd>, dirty: int): seq<Line> {
    [Opening(c, db)] + Lines(c, db, q, dirty) +
    if Closes(q, dirty) then [Closing(c, DbAfterAll(q, db))] else []
  }

  /** What a transaction that runs adds to the log. */
  lemma ExecLog(w: World, c: nat)
    requires c in w.conns && w.conns[c].multi && c !in w.ix.dirty
    ensures ExecStep(w, c).log == w.log + Block(c, w.conns[c].db, w.conns[c].queue, w.dirty)
  {
    hide React, RunQueue, Lines, DirtyAfter, DbAfterAll;
    var q, db := w.conns[c].queue, w.conns[c].db;
    var w1 := Happen(w.(log := w.log + [Opening(c, db)]), Forgot(c));
    RunQueueConns(w1, c, q);
    RunQueueLog(w1, c, q);
    RunQueueDirty(w1, c, q);
    var lines, end := Lines(c, db, q, w.dirty), [Closing(c, DbAfterAll(q, db))];
    assert w.log + [Opening(c, db)] + lines == w.log + ([Opening(c, db)] + lines);
    assert w.log + ([Opening(c, db)] + lines) + end == w.log + ([Opening(c, db)] + lines + end);
    assert [Opening(c, db)] + lines + [] == [Opening(c, db)] + lines;
  }

  lemma LineRead(c: nat, db: nat, cmd: Cmd, dirty: int, open: Option<nat>)
    ensures Read(open, LinesOf(c, db, cmd, dirty)) ==
      if !Counts(cmd, dirty) || open == None || open == Some(c) then Some(open) else None
  {
    hide Counts, Deletions;
    var first := if cmd.Data? then Deletions(cmd.expired) else [];
    ReadConcat(open, first, if Counts(cmd, dirty) then [Plain(c, db, cmd)] else []);
    DeletionsRead(open, first);
    assert [Plain(c, db, cmd)][1..] == [];
  }

  lemma {:induction false} DeletionsRead(open: Option<nat>, lines: seq<Line>)
    requires forall i :: 0 <= i < |lines| ==> lines[i].Expired?
    ensures Read(open, lines) == Some(open)
    decreases |lines|
  {
    if lines != [] { DeletionsRead(open, lines[1..]); }
  }

  lemma {:induction false} LinesRead(c: nat, db: nat, q: seq<Cmd>, dirty: int)
    ensures Read(Some(c), Lines(c, db, q, dirty)) == Some(Some(c))
    decreases |q|
  {
    hide LinesOf, Counted, DbAfter;
    if q != [] {
      LineRead(c, db, q[0], dirty, Some(c));
      LinesRead(c, DbAfter(q[0], db), q[1..], Counted(q[0], dirty));
      ReadConcat(Some(c), LinesOf(c, db, q[0], dirty), Lines(c, DbAfter(q[0], db), q[1..], Counted(q[0], dirty)));
    }
  }

  /** A block is balanced if and only if the queue leaves the counter no lower than
      it was; behind an open MULTI it breaks the log in any case. */
  lemma BlockRead(c: nat, db: nat, q: seq<Cmd>, dirty: int, open: Option<nat>)
    ensures Read(open, Block(c, db, q, dirty)) ==
      if open.Some? then None else Some(if Closes(q, dirty) then None else Some(c))
  {
    hide Lines, Closes, DbAfterAll;
    var end := if Closes(q, dirty) then [Closing(c, DbAfterAll(q, db))] else [];
    ReadConcat(open, [Opening(c, db)] + Lines(c, db, q, dirty), end);
    ReadConcat(open, [Opening(c, db)], Lines(c, db, q, dirty));
    assert [Opening(c, db)][1..] == [] && [Closing(c, DbAfterAll(q, db))][1..] == [];
    if open == None { LinesRead(c, db, q, dirty); }
  }

  /** After a transaction that runs, a log that was balanced is balanced again if
      and only if the queue leaves the counter no lower than it was. */
  lemma ExecBalanced(w: World, c: nat)
    requires c in w.conns && w.conns[c].multi && c !in w.ix.dirty
    requires Read(None, w.log) == Some(None)
    ensures Read(None, ExecStep(w, c).log) ==
      Some(if Closes(w.conns[c].queue, w.dirty) then None else Some(c))
  {
    hide ExecStep, Closes, Block;
    ExecLog(w, c);
    var block := Block(c, w.conns[c].db, w.conns[c].queue, w.dirty);
    ReadConcat(None, w.log, block);
    BlockRead(c, w.conns[c].db, w.conns[c].queue, w.dirty, None);
  }

  // ---- when the EXEC reaches the log ----------------------------------------------

  /** The command sets the counter rather than adding to it. */
  predicate Resets(cmd: Cmd, dirty: int) {
    cmd.Assign? || (cmd.Flush? && cmd.all && cmd.saves && CInt(dirty + cmd.removed) != dirty + cmd.removed)
  }

  predicate NoReset(q: seq<Cmd>, dirty: int)
    decreases |q|
  {
    q != [] ==> !Resets(q[0], dirty) && NoReset(q[1..], Counted(q[0], dirty))
  }

  /** What a command adds to the counter unless it resets it. */
  function Added(cmd: Cmd): nat {
    match cmd
    case Data(_, _, changes, _) => changes
    case Flush(_, all, _, removed, _) => removed + if all then 1 else 0
    case _ => 0
  }

  function AddedBy(q: seq<Cmd>): nat {
    if q == [] then 0 else Added(q[0]) + AddedBy(q[1..])
  }

  /** What the last command that resets the counter sets it to, and what is added
      after that. */
  function SinceReset(q: seq<Cmd>, dirty: int): int
    requires !NoReset(q, dirty)
    decreases |q|
  {
    var d := Counted(q[0], dirty);
    if !NoReset(q[1..], d) then SinceReset(q[1..], d) else d + AddedBy(q[1..])
  }

  lemma CountedAdds(cmd: Cmd, dirty: int)
    ensures !Resets(cmd, dirty) ==> Counted(cmd, dirty) == dirty + Added(cmd)
  {
    hide CInt;
  }

  lemma {:induction false} DirtyNoReset(q: seq<Cmd>, dirty: int)
    requires NoReset(q, dirty)
    ensures DirtyAfter(q, dirty) == dirty + AddedBy(q)
    decreases |q|
  {
    hide Resets, Counted, Added;
    if q != [] {
      CountedAdds(q[0], dirty);
      DirtyNoReset(q[1..], Counted(q[0], dirty));
    }
  }

  lemma {:induction false} DirtyReset(q: seq<Cmd>, dirty: int)
    requires !NoReset(q, dirty)
    ensures DirtyAfter(q, dirty) == SinceReset(q, dirty)
    decreases |q|
  {
    hide Resets, Counted, Added;
    var d := Counted(q[0], dirty);
    if NoReset(q[1..], d) { DirtyNoReset(q[1..], d); } else { DirtyReset(q[1..], d); }
  }

  /** When the EXEC reaches the log: no command of the queue resets the counter, or
      the last one that does and what follows it bring the counter back to where it
      was before the transaction. */
  lemma ClosesWhen(q: seq<Cmd>, dirty: int)
    ensures Closes(q, dirty) <==> NoReset(q, dirty) || SinceReset(q, dirty) >= dirty
  {
    hide NoReset, DirtyAfter, SinceReset;
    if NoReset(q, dirty) { DirtyNoReset(q, dirty); } else { DirtyReset(q, dirty); }
  }

  /** Nothing in the queue sets the counter, and it stays below 2^31 if there is a
      FLUSHALL that saves. */
  predicate Calm(q: seq<Cmd>, dirty: int) {
    && (forall i :: 0 <= i < |q| ==> !q[i].Assign?)
    && ((forall i :: 0 <= i < |q| ==> !(q[i].Flush? && q[i].all && q[i].saves))
        || (0 <= dirty && dirty + AddedBy(q) <= INT_MAX))
  }

  /** A queue without SAVE, DEBUG RELOAD and DEBUG LOADAOF always reaches its EXEC
      while the counter is an int. */
  lemma {:induction false} CalmCloses(q: seq<Cmd>, dirty: int)
    requires Calm(q, dirty)
    ensures NoReset(q, dirty) && Closes(q, dirty)
    decreases |q|
  {
    hide CInt;
    if q != [] {
      CountedAdds(q[0], dirty);
      forall i | 0 <= i < |q[1..]| ensures q[1..][i] == q[i + 1] {}
      CalmCloses(q[1..], Counted(q[0], dirty));
    }
    ClosesWhen(q, dirty);
  }

  /** FLUSHALL itself is lost to the log, with save points set, once the counter has
      passed what an int holds: from then on it reaches the log at no counter, and
      until then exactly when the number of keys does not carry it past. */
  lemma FlushAllCounts(argv: seq<bytes>, present: set<Pair>, removed: nat, dirty: nat)
    requires removed <= INT_MAX
    ensures Counts(Flush(argv, true, present, removed, true), dirty) <==> dirty + removed <= INT_MAX
  {
    assert CInt(dirty + removed) <= INT_MAX;
  }

  // ---- over whole runs -----------------------------------------------------------

  /** If the event is an EXEC that runs its queue, this EXEC reaches the log. */
  predicate ClosesAt(w: World, e: Event) {
    e.Asked? && e.cmd.Exec? && e.client in w.conns && w.conns[e.client].multi && e.client !in w.ix.dirty ==>
      Closes(w.conns[e.client].queue, w.dirty)
  }

  ghost predicate AllClose(w: World, es: seq<Event>)
    requires PossibleRun(w, es)
    decreases |es|
  {
    es != [] ==> ClosesAt(w, es[0]) && AllClose(Next(w, es[0]), es[1..])
  }

  /** What an event adds to the log. */
  function LogOf(w: World, e: Event): seq<Line> {
    if e.Cycle? then Deletions(e.expired)
    else if !e.Asked? || e.client !in w.conns then []
    else
      var conn := w.conns[e.client];
      if e.cmd.Exec? && conn.multi && e.client !in w.ix.dirty then Block(e.client, conn.db, conn.queue, w.dirty)
      else if conn.multi || Immediate(e.cmd) then []
      else LinesOf(e.client, conn.db, e.cmd, w.dirty)
  }

  lemma NextLog(w: World, e: Event)
    requires Inv(w) && Possible(w, e)
    ensures Next(w, e).log == w.log + LogOf(w, e)
  {
    hide Tells, React, ExecStep, Basic, WatchKeys, Block, LinesOf;
    assert w.log + [] == w.log;
    if e.Asked? {
      var c := e.client;
      if w.conns[c].multi && !Immediate(e.cmd) {
      } else {
        match e.cmd
        case Watch(keys) => WatchKeysTells(w, c, w.conns[c].db, keys);
        case Multi =>
        case Discard =>
        case Exec =>
          if !w.conns[c].multi {
            ExecNotOpen(w, c);
          } else if c in w.ix.dirty {
            ExecAborts(w, c);
          } else {
            ExecLog(w, c);
          }
        case _ => BasicLog(w, c, e.cmd);
      }
    }
  }

  lemma NextBalanced(w: World, e: Event)
    requires Inv(w) && Possible(w, e)
    ensures Read(None, Next(w, e).log) == Some(None) <==> Read(None, w.log) == Some(None) && ClosesAt(w, e)
  {
    hide Inv, Next, Read, Block, LinesOf, Closes, Possible;
    NextLog(w, e);
    ReadConcat(None, w.log, LogOf(w, e));
    if Read(None, w.log).Some? {
      var open := Read(None, w.log).value;
      NothingRead(open);
      if e.Cycle? { DeletionsRead(open, Deletions(e.expired)); }
      if e.Asked? && e.client in w.conns {
        BlockRead(e.client, w.conns[e.client].db, w.conns[e.client].queue, w.dirty, open);
        LineRead(e.client, w.conns[e.client].db, e.cmd, w.dirty, open);
      }
    }
  }

  lemma NothingRead(open: Option<nat>)
    ensures Read(open, []) == Some(open)
  {
  }

  /** The log of a run is a sequence of commands and of MULTI ... EXEC blocks, each
      of a single client, if and only if every EXEC that ran its queue has reached
      it. One that has not leaves its MULTI open for good. */
  lemma {:induction false} LogBalanced(w: World, es: seq<Event>)
    requires Inv(w) && PossibleRun(w, es)
    ensures Read(None, Run(w, es).log) == Some(None) <==> Read(None, w.log) == Some(None) && AllClose(w, es)
    decreases |es|
  {
    hide Inv, Next, Possible, ClosesAt, Read;
    if es != [] {
      NextKeeps(w, es[0]);
      NextBalanced(w, es[0]);
      LogBalanced(Next(w, es[0]), es[1..]);
    }
  }

  const SET_X: seq<bytes> := [[83, 69, 84], [120], [49]]
  const SAVE: seq<bytes> := [[83, 65, 86, 69]]

  /** A client connects, changes a key and sends MULTI, SAVE, EXEC. */
  const SAVING: seq<Event> := [
    Connected(0), Asked(0, Data(SET_X, [], 1, [])), Asked(0, Multi), Asked(0, Assign(SAVE, [], 0)), Asked(0, Exec)]

  /** The states of that run before its EXEC. */
  lemma SavingStates() returns (w1: World, w2: World, w3: World, w4: World)
    ensures Possible(IDLE, SAVING[0]) && w1 == Next(IDLE, SAVING[0])
    ensures Possible(w1, SAVING[1]) && w2 == Next(w1, SAVING[1])
    ensures Possible(w2, SAVING[2]) && w3 == Next(w2, SAVING[2])
    ensures Possible(w3, SAVING[3]) && w4 == Next(w3, SAVING[3])
    ensures 0 in w4.conns && w4.conns[0] == Conn(0, true, [Assign(SAVE, [], 0)]) && 0 !in w4.ix.dirty
    ensures w4.dirty == 1 && w4.log == [Plain(0, 0, Data(SET_X, [], 1, []))]
  {
    w1 := Next(IDLE, SAVING[0]);
    w2 := Next(w1, SAVING[1]);
    w3 := Next(w2, SAVING[2]);
    w4 := Next(w3, SAVING[3]);
  }

  /** That run leaves the MULTI of its transaction open in the log. */
  lemma {:induction false} SaveLeavesOpen()
    ensures PossibleRun(IDLE, SAVING)
    ensures Run(IDLE, SAVING).log == [Plain(0, 0, Data(SET_X, [], 1, [])), Opening(0, 0)]
    ensures Read(None, Run(IDLE, SAVING).log) == Some(Some(0))
  {
    hide React, ExecStep;
    var one, save := Data(SET_X, [], 1, []), Assign(SAVE, [], 0);
    var w1, w2, w3, w4 := SavingStates();
    var w5 := Next(w4, SAVING[4]);
    assert w5.log == [Plain(0, 0, one), Opening(0, 0)] by {
      ExecLog(w4, 0);
      assert [save][1..] == [];
      assert DirtyAfter([save], 1) == 0 && Lines(0, 0, [save], 1) == [];
    }
    RunFive(SAVING, w1, w2, w3, w4, w5);
    OpenRead(one);
  }

  lemma OpenRead(one: Cmd)
    ensures Read(None, [Plain(0, 0, one), Opening(0, 0)]) == Some(Some(0))
  {
    var log: seq<Line> := [Plain(0, 0, one), Opening(0, 0)];
    assert log[1..] == [Opening(0, 0)] && log[2..] == [];
    assert Read(Some(0), log[1..][1..]) == Some(Some(0));
    assert Read(None, log[1..]) == Some(Some(0));
  }

  lemma RunFive(es: seq<Event>, w1: World, w2: World, w3: World, w4: World, w5: World)
    requires |es| == 5
    requires Possible(IDLE, es[0]) && Next(IDLE, es[0]) == w1 && Possible(w1, es[1]) && Next(w1, es[1]) == w2
    requires Possible(w2, es[2]) && Next(w2, es[2]) == w3 && Possible(w3, es[3]) && Next(w3, es[3]) == w4
    requires Possible(w4, es[4]) && Next(w4, es[4]) == w5
    ensures PossibleRun(IDLE, es) && Run(IDLE, es) == w5
  {
    hide Next, Possible;
    assert es[1..][1..] == es[2..] && es[2..][1..] == es[3..] && es[3..][1..] == es[4..] && es[4..][1..] == [];
    assert PossibleRun(w5, []) && Run(w5, []) == w5;
    assert PossibleRun(w4, es[4..]) && Run(w4, es[4..]) == w5;
    assert PossibleRun(w3, es[3..]) && Run(w3, es[3..]) == w5;
    assert PossibleRun(w2, es[2..]) && Run(w2, es[2..]) == w5;
  }
}
