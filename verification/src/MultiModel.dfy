/**
MULTI, EXEC, DISCARD and the commands around them (multi.c, redis.c:1037-1054,
1138-1150): which commands are queued, when a queue runs, and what reaches the
log. A data command is given with the pairs it touches and the number of changes
it counts, and with the keys past their deadlines that it meets and removes, for
which a DEL is fed (db.c:479-494); all are arbitrary. `Assign` is a command that sets server.dirty, to
any value: SAVE and DEBUG RELOAD (rdb.c:487, debug.c:219) and DEBUG LOADAOF
(debug.c:238) set it to 0 when they succeed.
*/
module MultiModel {
  import opened Common
  import opened WatchIndex

  datatype Cmd =
    | Watch(keys: seq<bytes>) | Unwatch | Multi | Discard | Exec
    | Select(db: nat)
    | Data(argv: seq<bytes>, touched: seq<Pair>, changes: nat, expired: seq<Pair>)
    | Flush(argv: seq<bytes>, all: bool, present: set<Pair>, removed: nat, saves: bool)
    | Assign(argv: seq<bytes>, touched: seq<Pair>, value: int)

  /** Executed at once even between MULTI and EXEC. */
  predicate Immediate(cmd: Cmd) {
    cmd.Exec? || cmd.Discard? || cmd.Multi? || cmd.Watch?
  }

  datatype Conn = Conn(db: nat, multi: bool, queue: seq<Cmd>)

  /** What feedAppendOnlyFile is given: the MULTI and the EXEC around a queue, or
      another command, each with the client that runs it and the database that is
      selected when it is fed; or the DEL of an expired key. */
  datatype Line =
    | Opening(client: nat, db: nat) | Plain(client: nat, db: nat, cmd: Cmd) | Closing(client: nat, db: nat)
    | Expired(db: nat, key: bytes)

  /** propagateExpire, key by key. */
  function Deletions(expired: seq<Pair>): (r: seq<Line>)
    ensures |r| == |expired| && forall i :: 0 <= i < |r| ==> r[i].Expired?
  {
    seq(|expired|, i requires 0 <= i < |expired| => Expired(expired[i].0, expired[i].1))
  }

  /** server.dirty after a command. FLUSHALL keeps it in an int while it saves
      (db.c:217-219), which it does when there are save points, and counts itself. */
  function Counted(cmd: Cmd, dirty: int): int {
    match cmd
    case Data(_, _, changes, _) => dirty + changes
    case Flush(_, all, _, removed, saves) =>
      if !all then dirty + removed else (if saves then CInt(dirty + removed) else dirty + removed) + 1
    case Assign(_, _, value) => value
    case _ => dirty
  }

  /** `history` and `executed` are kept for the statements only. `dirty` is
      server.dirty, the number of changes since the last save. */
  datatype World = World(
    conns: map<nat, Conn>, ix: Index, dirty: int, log: seq<Line>,
    history: seq<Moment>, executed: seq<(nat, Cmd)>)

  function Happen(w: World, m: Moment): World {
    w.(ix := React(w.ix, m), history := w.history + [m])
  }

  function WatchKeys(w: World, c: nat, db: nat, keys: seq<bytes>): World
    decreases |keys|
  {
    if keys == [] then w else WatchKeys(Happen(w, Watched(c, (db, keys[0]))), c, db, keys[1..])
  }

  function TouchAll(w: World, ks: seq<Pair>): World
    decreases |ks|
  {
    if ks == [] then w else TouchAll(Happen(w, Touched(ks[0])), ks[1..])
  }

  /** call: the command is fed if it has raised server.dirty. */
  function Fed(w: World, before: int, line: Line): World {
    if w.dirty - before > 0 then w.(log := w.log + [line]) else w
  }

  function LineOf(w: World, c: nat, cmd: Cmd): Line
    requires c in w.conns
  {
    Plain(c, w.conns[c].db, cmd)
  }

  /** A command that is not about transactions, run by `c`. */
  function Basic(w: World, c: nat, cmd: Cmd): World
    requires c in w.conns
  {
    var w1 := w.(executed := w.executed + [(c, cmd)]);
    match cmd
    case Unwatch => Happen(w1, Forgot(c))
    case Select(db) => w1.(conns := w1.conns[c := w1.conns[c].(db := db)])
    case Data(_, touched, _, expired) =>
      Fed(TouchAll(w1, touched).(dirty := Counted(cmd, w.dirty), log := w.log + Deletions(expired)), w.dirty,
          LineOf(w, c, cmd))
    case Flush(_, all, present, _, _) =>
      var db := if all then None else Some(w.conns[c].db);
      Fed(Happen(w1, FlushedDb(db, present)).(dirty := Counted(cmd, w.dirty)), w.dirty, LineOf(w, c, cmd))
    case Assign(_, touched, _) =>
      Fed(TouchAll(w1, touched).(dirty := Counted(cmd, w.dirty)), w.dirty, LineOf(w, c, cmd))
    case _ => w
  }

  function RunQueue(w: World, c: nat, q: seq<Cmd>): World
    requires c in w.conns
    decreases |q|
  {
    if q == [] then w
    else
      var w1 := Basic(w, c, q[0]);
      BasicConns(w, c, q[0]);
      RunQueue(w1, c, q[1..])
  }

  function Closed(w: World, c: nat): World
    requires c in w.conns
  {
    w.(conns := w.conns[c := w.conns[c].(multi := false, queue := [])], ix := w.ix.(dirty := w.ix.dirty - {c}))
  }

  /** execCommand and the feeding of EXEC by call. */
  function ExecStep(w: World, c: nat): World
    requires c in w.conns
  {
    var q := w.conns[c].queue;
    if !w.conns[c].multi then w
    else if c in w.ix.dirty then Happen(Closed(w, c), Forgot(c))
    else
      var w1 := Happen(w.(log := w.log + [Opening(c, w.conns[c].db)]), Forgot(c));
      RunQueueConns(w1, c, q);
      var w2 := Closed(RunQueue(w1, c, q), c);
      Fed(w2.(dirty := w2.dirty + 1), w.dirty, Closing(c, w2.conns[c].db))
  }

  /** processCommand, once the checks before it have passed. */
  function Request(w: World, c: nat, cmd: Cmd): World
    requires c in w.conns
  {
    var conn := w.conns[c];
    if conn.multi && !Immediate(cmd) then
      w.(conns := w.conns[c := conn.(queue := conn.queue + [cmd])])
    else
      match cmd
      case Watch(keys) => if conn.multi then w else WatchKeys(w, c, conn.db, keys)
      case Multi => if conn.multi then w else w.(conns := w.conns[c := conn.(multi := true)])
      case Discard => if conn.multi then Happen(Closed(w, c), Forgot(c)) else w
      case Exec => ExecStep(w, c)
      case _ => Basic(w, c, cmd)
  }

  /** The end of a background save takes from the counter what it was when the save
      began (rdb.c:1069); the expire cycle removes keys. */
  datatype Event =
    | Asked(client: nat, cmd: Cmd) | Connected(client: nat) | Gone(client: nat)
    | Saved(changes: int) | Cycle(expired: seq<Pair>)

  predicate Possible(w: World, e: Event) {
    match e
    case Connected(c) => c !in w.conns
    case Saved(_) => true
    case Cycle(_) => true
    case _ => e.client in w.conns
  }

  function Next(w: World, e: Event): World
    requires Possible(w, e)
  {
    match e
    case Asked(c, cmd) => Request(w, c, cmd)
    case Connected(c) => w.(conns := w.conns[c := Conn(0, false, [])])
    case Gone(c) =>
      var w1 := Happen(w, Forgot(c));
      w1.(conns := w1.conns - {c})
    case Saved(changes) => w.(dirty := w.dirty - changes)
    case Cycle(expired) => w.(log := w.log + Deletions(expired))
  }

  ghost predicate PossibleRun(w: World, es: seq<Event>)
    decreases |es|
  {
    es != [] ==> Possible(w, es[0]) && PossibleRun(Next(w, es[0]), es[1..])
  }

  ghost function Run(w: World, es: seq<Event>): World
    requires PossibleRun(w, es)
    decreases |es|
  {
    if es == [] then w else Run(Next(w, es[0]), es[1..])
  }

  const IDLE: World := World(map[], Index(map[], map[], {}), 0, [], [], [])

  // ---- frame ----------------------------------------------------------------

  lemma {:induction false} TouchAllFrame(w: World, ks: seq<Pair>)
    ensures var r := TouchAll(w, ks);
      r.conns == w.conns && r.log == w.log && r.executed == w.executed && r.dirty == w.dirty
    decreases |ks|
  {
    hide React;
    if ks != [] { TouchAllFrame(Happen(w, Touched(ks[0])), ks[1..]); }
  }

  /** Running a command changes no connection but the database of its own. */
  lemma BasicConns(w: World, c: nat, cmd: Cmd)
    requires c in w.conns
    ensures var r := Basic(w, c, cmd);
      && r.conns.Keys == w.conns.Keys
      && (forall d :: d in w.conns && d != c ==> r.conns[d] == w.conns[d])
      && r.conns[c].multi == w.conns[c].multi && r.conns[c].queue == w.conns[c].queue
      && r.conns[c].db == DbAfter(cmd, w.conns[c].db)
      && r.executed == (if Immediate(cmd) then w.executed else w.executed + [(c, cmd)])
  {
    hide React, TouchAll, Counted;
    if cmd.Data? || cmd.Assign? { TouchAllFrame(w.(executed := w.executed + [(c, cmd)]), cmd.touched); }
  }

  /** The database selected after a command. */
  function DbAfter(cmd: Cmd, db: nat): nat {
    if cmd.Select? then cmd.db else db
  }

  function DbAfterAll(q: seq<Cmd>, db: nat): nat
    decreases |q|
  {
    if q == [] then db else DbAfterAll(q[1..], DbAfter(q[0], db))
  }

  function Tagged(c: nat, q: seq<Cmd>): (r: seq<(nat, Cmd)>)
    ensures |r| == |q|
  {
    seq(|q|, i requires 0 <= i < |q| => (c, q[i]))
  }

  ghost predicate Queueable(q: seq<Cmd>) {
    forall i :: 0 <= i < |q| ==> !Immediate(q[i])
  }

  lemma {:induction false} RunQueueConns(w: World, c: nat, q: seq<Cmd>)
    requires c in w.conns
    ensures var r := RunQueue(w, c, q);
      && r.conns.Keys == w.conns.Keys
      && (forall d :: d in w.conns && d != c ==> r.conns[d] == w.conns[d])
      && r.conns[c].multi == w.conns[c].multi && r.conns[c].queue == w.conns[c].queue
      && r.conns[c].db == DbAfterAll(q, w.conns[c].db)
      && (Queueable(q) ==> r.executed == w.executed + Tagged(c, q))
    decreases |q|
  {
    hide Basic, Immediate;
    if q == [] {
      assert w.executed + Tagged(c, q) == w.executed;
    } else {
      BasicConns(w, c, q[0]);
      RunQueueConns(Basic(w, c, q[0]), c, q[1..]);
      if Queueable(q) {
        assert !Immediate(q[0]) && Queueable(q[1..]);
        assert w.executed + [(c, q[0])] + Tagged(c, q[1..]) == w.executed + Tagged(c, q);
      }
    }
  }
}
