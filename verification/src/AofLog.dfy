/**
The append only file over a whole run (aof.c:18-58, 78-156, 203-246, 664-706,
745-877): feeding, flushing, background rewrites that may fail at any point, and
switching the log on and off. The theorems say what the file, the buffers and the
temporary file of a rewrite rebuild when they are loaded.
*/
module AofLog {
  import opened Common
  import opened Decimal
  import opened Resp
  import opened AofCodec
  import opened AofReplay
  import opened AofRewrite

  const EXPIRE: bytes := [69, 88, 80, 73, 82, 69]
  const SETEX: bytes := [83, 69, 84, 69, 88]

  // ---- what is fed --------------------------------------------------------

  /** A deadline that is not in the future turns the command into a DEL when it
      is executed, before it is fed (db.c:547-559). */
  function AsRun(c: Command, now: int): Command {
    if Name(c) == EXPIRE && |c| == 3 && Atol(c[2]) <= 0 then [DEL, c[1]]
    else if Name(c) == EXPIREAT && |c| == 3 && Atol(c[2]) - now <= 0 then [DEL, c[1]]
    else c
  }

  predicate Relative(c: Command) {
    (Name(c) == EXPIRE && |c| == 3) || (Name(c) == SETEX && |c| == 4)
  }

  /** EXPIRE and SETEX are logged with the deadline itself. */
  function Translate(c: Command, now: int): seq<Command> {
    if Name(c) == EXPIRE && |c| == 3 then [[EXPIREAT, c[1], Print(now + Atol(c[2]))]]
    else if Name(c) == SETEX && |c| == 4 then
      [[SET, c[1], c[3]], [EXPIREAT, c[1], Print(now + Atol(c[2]))]]
    else [c]
  }

  /** feedAppendOnlyFile: a SELECT is needed unless the last command fed was for
      the same database. */
  function FeedCommands(seldb: Option<nat>, db: nat, c: Command, now: int): seq<Command> {
    (if seldb == Some(db) then [] else [[SELECT, Print(db)]]) + Translate(c, now)
  }

  // ---- the server's side --------------------------------------------------

  /** The fields of the server: `open` says whether appendfd is a descriptor, and
      `child` is what the child that is rewriting leaves in its temporary file. */
  datatype Core = Core(
    on: bool, open: bool, file: bytes, aofbuf: bytes, seldb: Option<nat>,
    child: Option<bytes>, diff: bytes)

  function Feed(core: Core, db: nat, c: Command, now: int): Core {
    var buf := EncodeAll(FeedCommands(core.seldb, db, c, now));
    core.(seldb := Some(db), aofbuf := core.aofbuf + buf,
          diff := if core.child.Some? then core.diff + buf else core.diff)
  }

  /** A flush that writes. A write that fails or is short ends the process. */
  function Flushed(core: Core): Core {
    core.(file := core.file + core.aofbuf, aofbuf := [])
  }

  function Forked(core: Core, temp: bytes): Core {
    core.(child := Some(temp), seldb := None)
  }

  datatype Exit = Failed | NotOpened | NotWritten | NotRenamed | Swapped

  function Reaped(core: Core, exit: Exit): Core
    requires core.child.Some?
  {
    var c := core.(child := None, diff := []);
    if exit != Swapped then c
    else if !core.open then c.(file := core.child.value + core.diff)
    else c.(file := core.child.value + core.diff, seldb := None, aofbuf := [])
  }

  /** stopAppendOnly; its flush is forced. */
  function Stopped(core: Core): Core {
    var c := Flushed(core).(on := false, open := false, seldb := None);
    if core.child.Some? then c.(child := None, diff := []) else c
  }

  /** startAppendOnly. A failed open leaves the log switched on without a file; a
      refused rewrite switches it off again but keeps the number of the descriptor
      it has closed. */
  function Started(core: Core, canOpen: bool, temp: Option<bytes>): Core {
    if !canOpen then core.(on := true, open := false)
    else if core.child.Some? || temp == None then core.(on := false, open := true)
    else Forked(core.(on := true, open := true), temp.value)
  }

  // ---- the world ----------------------------------------------------------

  /**
  The server with its data. `txn` says that an EXEC is running its queue. The last
  three are not stored anywhere: `synced` that the log accounts for the data,
  `childSynced` the same of the log being rewritten, and `flushed` the data at the
  last flush of a log in step with it.
  */
  datatype World = World(
    core: Core, data: Dataset, txn: bool,
    synced: bool, childSynced: bool, flushed: Option<Dataset>)

  datatype Event =
    | Execute(db: nat, cmd: Command, now: int, fedAt: int)
    | Begin(db: nat)
    | End(db: nat, fed: bool)
    | Flush
    | Fork(dump: Dump, at: int)
    | ForkFails
    | ChildExit(exit: Exit)
    | TurnOff
    | TurnOn(canOpen: bool, forks: bool, dump: Dump, at: int)

  /** The effect of a data command when a client runs it at time `now`. */
  function Live(apply: Effect, data: Dataset, db: nat, c: Command, now: int): Dataset {
    var r := AsRun(c, now);
    if Name(r) == EXPIRE && |r| == 3 then
      var k := (db, r[1]);
      if k in data then data[k := data[k].(expire := Some(now + Atol(r[2])))] else data
    else if Name(r) == SETEX && |r| == 4 then
      data[(db, r[1]) := Entry(Str(r[3]), Some(now + Atol(r[2])))]
    else Perform(apply, data, db, r)
  }

  predicate Fits(core: Core, db: nat, c: Command, now: int) {
    AllLoadable(FeedCommands(core.seldb, db, c, now))
  }

  /** The dump lists what is in memory, in some order. */
  ghost predicate Snapshot(dump: Dump, data: Dataset, dbnum: nat, now: int) {
    DumpOk(dump) && |dump| <= dbnum && DumpData(dump) == data && AllLoadable(RewriteCommands(dump, now))
  }

  /** What may happen next. The log is written, and a child is reaped, from the
      event loop, where no EXEC is running. */
  ghost predicate Possible(dbnum: nat, w: World, e: Event) {
    match e
    case Execute(db, c, now, fedAt) =>
      db < dbnum && c != [] && !Control(c) && Fits(w.core, db, AsRun(c, now), fedAt)
    case Begin(db) => !w.txn && db < dbnum && Fits(w.core, db, [MULTI], 0)
    case End(db, _) => w.txn && db < dbnum && Fits(w.core, db, [EXEC], 0)
    case Flush => !w.txn && (w.core.open || w.core.aofbuf == [])
    case Fork(dump, now) => w.core.child == None && Snapshot(dump, w.data, dbnum, now)
    case ForkFails => true
    case ChildExit(_) => !w.txn && w.core.child.Some?
    case TurnOff => w.core.on && (w.core.open || w.core.aofbuf == [])
    case TurnOn(_, _, dump, now) => !w.core.on && Snapshot(dump, w.data, dbnum, now)
  }

  function Temp(dump: Dump, now: int): bytes {
    EncodeAll(RewriteCommands(dump, now))
  }

  ghost function Next(apply: Effect, w: World, e: Event): World
    requires e.ChildExit? ==> w.core.child.Some?
  {
    match e
    case Execute(db, c, now, fedAt) =>
      var data := Live(apply, w.data, db, c, now);
      var r := AsRun(c, now);
      if w.core.on then
        var kept := Relative(r) ==> fedAt == now;
        w.(core := Feed(w.core, db, r, fedAt), data := data,
           synced := w.synced && kept, childSynced := w.childSynced && kept)
      else
        w.(data := data, synced := w.synced && data == w.data, childSynced := w.childSynced && data == w.data)
    case Begin(db) =>
      w.(core := if w.core.on then Feed(w.core, db, [MULTI], 0) else w.core, txn := true)
    case End(db, fed) =>
      var feeds := w.core.on && fed;
      w.(core := if feeds then Feed(w.core, db, [EXEC], 0) else w.core, txn := false,
         synced := w.synced && feeds, childSynced := w.childSynced && feeds)
    case Flush =>
      w.(core := Flushed(w.core), flushed := if w.synced then Some(w.data) else None)
    case Fork(dump, now) =>
      w.(core := Forked(w.core, Temp(dump, now)), childSynced := Unexpired(w.data, now) == w.data)
    case ForkFails => w
    case ChildExit(exit) =>
      var core := Reaped(w.core, exit);
      if exit != Swapped then w.(core := core, childSynced := false)
      else
        var ok := w.childSynced;
        w.(core := core, synced := ok && (w.core.open || !w.core.on), childSynced := false,
           flushed := if ok then Some(w.data) else None)
    case TurnOff =>
      w.(core := Stopped(w.core), childSynced := false,
         flushed := if w.synced && !w.txn then Some(w.data) else None)
    case TurnOn(canOpen, forks, dump, now) =>
      var temp := if forks then Some(Temp(dump, now)) else None;
      w.(core := Started(w.core, canOpen, temp),
         childSynced := if canOpen && forks && w.core.child == None then Unexpired(w.data, now) == w.data
                        else w.childSynced)
  }

  // ---- the invariant ------------------------------------------------------

  /** Loading `log` rebuilds the data, with the database selected that the server
      believes selected. A MULTI may be open only while an EXEC runs. */
  ghost predicate Represents(apply: Effect, dbnum: nat, log: bytes, w: World) {
    && Decode(log).Ok?
    && var r := Replay(apply, dbnum, START, Decode(log).value);
       r.data == w.data && (r.multi ==> w.txn) && (w.core.seldb.Some? ==> r.db == w.core.seldb.value)
  }

  ghost predicate Inv(apply: Effect, dbnum: nat, w: World) {
    && (w.synced ==> Represents(apply, dbnum, w.core.file + w.core.aofbuf, w))
    && (w.core.child.Some? && w.childSynced ==> Represents(apply, dbnum, w.core.child.value + w.core.diff, w))
    && (w.flushed.Some? ==> Load(apply, dbnum, w.core.file) == Ok(w.flushed.value))
    && (w.core.child == None ==> w.core.diff == [])
    && (!w.core.on ==> w.core.aofbuf == [] && w.core.seldb == None)
  }

  lemma SelectedReplay(apply: Effect, dbnum: nat, s: State, seldb: Option<nat>, db: nat, c: Command, now: int)
    requires db < dbnum && (seldb.Some? ==> s.db == seldb.value)
    ensures Replay(apply, dbnum, s, FeedCommands(seldb, db, c, now)) ==
            Replay(apply, dbnum, s.(db := db), Translate(c, now))
  {
    hide Step, Translate;
    var t := Translate(c, now);
    if seldb == Some(db) {
      assert [] + t == t && s.(db := db) == s;
    } else {
      ReplayConcat(apply, dbnum, s, [[SELECT, Print(db)]], t);
      ReplayOne(apply, dbnum, s, [SELECT, Print(db)]);
      SelectReplay(apply, dbnum, s, db);
    }
  }

  /** A data command fed at the time it ran is replayed to its effect. */
  lemma DataReplay(apply: Effect, dbnum: nat, s: State, c: Command, now: int)
    requires c != [] && !Control(c)
    ensures Replay(apply, dbnum, s, Translate(AsRun(c, now), now)) == s.(data := Live(apply, s.data, s.db, c, now))
  {
    hide Upper;
    var r := AsRun(c, now);
    CapitalNames();
    if Name(r) == EXPIRE && |r| == 3 {
      ExpireAtReplay(apply, dbnum, s, r[1], now + Atol(r[2]));
    } else if Name(r) == SETEX && |r| == 4 {
      SetExReplay(apply, dbnum, s, r[1], r[3], now + Atol(r[2]));
    } else {
      ReplayOne(apply, dbnum, s, r);
      assert !Control(r);
    }
  }

  lemma CapitalNames()
    ensures forall k :: Name([DEL, k]) == DEL
    ensures Name([MULTI]) == MULTI && Name([EXEC]) == EXEC
  {
    assert Upper(DEL) == DEL && Upper(MULTI) == MULTI && Upper(EXEC) == EXEC;
  }

  lemma ExpireAtReplay(apply: Effect, dbnum: nat, s: State, key: bytes, at: int)
    ensures Replay(apply, dbnum, s, [[EXPIREAT, key, Print(at)]]) ==
      var k := (s.db, key);
      if k in s.data then s.(data := s.data[k := s.data[k].(expire := Some(at))]) else s
  {
    var c := [EXPIREAT, key, Print(at)];
    ReplayOne(apply, dbnum, s, c);
    DataCommand(c);
    AtolPrint(at);
    hide Upper;
  }

  lemma SetExReplay(apply: Effect, dbnum: nat, s: State, key: bytes, text: bytes, at: int)
    ensures Replay(apply, dbnum, s, [[SET, key, text], [EXPIREAT, key, Print(at)]]) ==
      s.(data := s.data[(s.db, key) := Entry(Str(text), Some(at))])
  {
    hide Upper, Print, Atol;
    var c, d := [SET, key, text], [EXPIREAT, key, Print(at)];
    assert [c, d] == [c] + [d];
    ReplayConcat(apply, dbnum, s, [c], [d]);
    ReplayOne(apply, dbnum, s, c);
    DataCommand(c);
    var s1 := Step(apply, dbnum, s, c);
    ExpireAtReplay(apply, dbnum, s1, key, at);
    assert s1.data[(s.db, key) := Entry(Str(text), Some(at))] == s.data[(s.db, key) := Entry(Str(text), Some(at))];
  }

  /** A log grows by commands: it replays to what these make of the old state. */
  lemma {:induction false} LogGrows(apply: Effect, dbnum: nat, log: bytes, cs: seq<Command>)
    requires Decode(log).Ok? && AllLoadable(cs)
    ensures var more := log + EncodeAll(cs);
      && Decode(more).Ok?
      && Replay(apply, dbnum, START, Decode(more).value) ==
         Replay(apply, dbnum, Replay(apply, dbnum, START, Decode(log).value), cs)
  {
    hide Decode, Replay, AllLoadable, EncodeAll;
    DecodeConcat(log, EncodeAll(cs));
    DecodeEncoded(cs);
    ReplayConcat(apply, dbnum, START, Decode(log).value, cs);
  }

  /** What a log that represents the data replays to after a command is fed. */
  lemma {:induction false} FedState(apply: Effect, dbnum: nat, log: bytes, w: World, db: nat, c: Command, now: int)
    requires Represents(apply, dbnum, log, w) && db < dbnum && Fits(w.core, db, c, now)
    ensures var more := log + EncodeAll(FeedCommands(w.core.seldb, db, c, now));
      && Decode(more).Ok?
      && Replay(apply, dbnum, START, Decode(more).value) ==
         Replay(apply, dbnum, State(db, w.data, Replay(apply, dbnum, START, Decode(log).value).multi),
                Translate(c, now))
  {
    hide Decode, Replay, FeedCommands, Translate, EncodeAll, AllLoadable;
    var r := Replay(apply, dbnum, START, Decode(log).value);
    LogGrows(apply, dbnum, log, FeedCommands(w.core.seldb, db, c, now));
    SelectedReplay(apply, dbnum, r, w.core.seldb, db, c, now);
    assert r.(db := db) == State(db, w.data, r.multi);
  }

  lemma MultiReplay(apply: Effect, dbnum: nat, s: State)
    ensures Replay(apply, dbnum, s, Translate([MULTI], 0)) == s.(multi := true)
    ensures Replay(apply, dbnum, s, Translate([EXEC], 0)) == s.(multi := false)
  {
    hide Upper;
    CapitalNames();
    ReplayOne(apply, dbnum, s, [MULTI]);
    ReplayOne(apply, dbnum, s, [EXEC]);
  }

  lemma RepresentsOther(apply: Effect, dbnum: nat, log: bytes, w: World, w': World)
    requires Represents(apply, dbnum, log, w) && w'.data == w.data && (w.txn ==> w'.txn)
    requires w'.core.seldb == None || w'.core.seldb == w.core.seldb
    ensures Represents(apply, dbnum, log, w')
  {
    hide Decode, Replay;
  }

  lemma RepresentsLoads(apply: Effect, dbnum: nat, log: bytes, w: World)
    requires Represents(apply, dbnum, log, w) && !w.txn
    ensures Load(apply, dbnum, log) == Ok(w.data)
  {
    hide Decode, Replay;
  }

  // ---- every event keeps the invariant ------------------------------------

  lemma {:induction false} ExecuteFeeds(apply: Effect, dbnum: nat, log: bytes, w: World, e: Event)
    requires e.Execute? && Possible(dbnum, w, e) && w.core.on && Represents(apply, dbnum, log, w)
    requires Relative(AsRun(e.cmd, e.now)) ==> e.fedAt == e.now
    ensures var fed := FeedCommands(w.core.seldb, e.db, AsRun(e.cmd, e.now), e.fedAt);
      Represents(apply, dbnum, log + EncodeAll(fed), Next(apply, w, e))
  {
    hide Decode, Replay, FeedCommands, EncodeAll, AllLoadable, Live, AsRun, Control;
    FedState(apply, dbnum, log, w, e.db, AsRun(e.cmd, e.now), e.fedAt);
    var r := Replay(apply, dbnum, START, Decode(log).value);
    DataReplay(apply, dbnum, State(e.db, w.data, r.multi), e.cmd, e.now);
    assert Translate(AsRun(e.cmd, e.now), e.fedAt) == Translate(AsRun(e.cmd, e.now), e.now);
  }

  lemma {:induction false} BeginFeeds(apply: Effect, dbnum: nat, log: bytes, w: World, e: Event)
    requires e.Begin? && Possible(dbnum, w, e) && w.core.on && Represents(apply, dbnum, log, w)
    ensures Represents(apply, dbnum, log + EncodeAll(FeedCommands(w.core.seldb, e.db, [MULTI], 0)), Next(apply, w, e))
  {
    hide Decode, Replay, FeedCommands, EncodeAll, AllLoadable, Translate;
    FedState(apply, dbnum, log, w, e.db, [MULTI], 0);
    var r := Replay(apply, dbnum, START, Decode(log).value);
    MultiReplay(apply, dbnum, State(e.db, w.data, r.multi));
  }

  lemma {:induction false} EndFeeds(apply: Effect, dbnum: nat, log: bytes, w: World, e: Event)
    requires e.End? && e.fed && Possible(dbnum, w, e) && w.core.on && Represents(apply, dbnum, log, w)
    ensures Represents(apply, dbnum, log + EncodeAll(FeedCommands(w.core.seldb, e.db, [EXEC], 0)), Next(apply, w, e))
  {
    hide Decode, Replay, FeedCommands, EncodeAll, AllLoadable, Translate;
    FedState(apply, dbnum, log, w, e.db, [EXEC], 0);
    var r := Replay(apply, dbnum, START, Decode(log).value);
    MultiReplay(apply, dbnum, State(e.db, w.data, r.multi));
  }

  /** A fed command goes to the end of both logs. */
  lemma FeedAppends(core: Core, db: nat, c: Command, now: int)
    ensures var f, buf := Feed(core, db, c, now), EncodeAll(FeedCommands(core.seldb, db, c, now));
      && f.file + f.aofbuf == core.file + core.aofbuf + buf
      && (core.child.Some? ==> f.child == core.child && f.child.value + f.diff == core.child.value + core.diff + buf)
  {
    hide EncodeAll, FeedCommands;
    var buf := EncodeAll(FeedCommands(core.seldb, db, c, now));
    assert core.file + (core.aofbuf + buf) == core.file + core.aofbuf + buf;
    if core.child.Some? {
      assert core.child.value + (core.diff + buf) == core.child.value + core.diff + buf;
    }
  }

  lemma {:induction false} ExecuteKeeps(apply: Effect, dbnum: nat, w: World, e: Event)
    requires e.Execute? && Inv(apply, dbnum, w) && Possible(dbnum, w, e)
    ensures Inv(apply, dbnum, Next(apply, w, e))
  {
    hide Represents, FeedCommands, EncodeAll, Live, AsRun, Control, Load, AllLoadable;
    var w' := Next(apply, w, e);
    if w.core.on {
      FeedAppends(w.core, e.db, AsRun(e.cmd, e.now), e.fedAt);
      if w'.synced { ExecuteFeeds(apply, dbnum, w.core.file + w.core.aofbuf, w, e); }
      if w.core.child.Some? && w'.childSynced {
        ExecuteFeeds(apply, dbnum, w.core.child.value + w.core.diff, w, e);
      }
    } else {
      if w'.synced { RepresentsOther(apply, dbnum, w.core.file + w.core.aofbuf, w, w'); }
      if w.core.child.Some? && w'.childSynced {
        RepresentsOther(apply, dbnum, w.core.child.value + w.core.diff, w, w');
      }
    }
  }

  lemma {:induction false} BeginKeeps(apply: Effect, dbnum: nat, w: World, e: Event)
    requires e.Begin? && Inv(apply, dbnum, w) && Possible(dbnum, w, e)
    ensures Inv(apply, dbnum, Next(apply, w, e))
  {
    hide Represents, FeedCommands, EncodeAll, Load, AllLoadable;
    var w' := Next(apply, w, e);
    FeedAppends(w.core, e.db, [MULTI], 0);
    if w'.synced {
      var log := w.core.file + w.core.aofbuf;
      if w.core.on { BeginFeeds(apply, dbnum, log, w, e); } else { RepresentsOther(apply, dbnum, log, w, w'); }
    }
    if w.core.child.Some? && w'.childSynced {
      var log := w.core.child.value + w.core.diff;
      if w.core.on { BeginFeeds(apply, dbnum, log, w, e); } else { RepresentsOther(apply, dbnum, log, w, w'); }
    }
  }

  lemma {:induction false} EndKeeps(apply: Effect, dbnum: nat, w: World, e: Event)
    requires e.End? && Inv(apply, dbnum, w) && Possible(dbnum, w, e)
    ensures Inv(apply, dbnum, Next(apply, w, e))
  {
    hide Represents, FeedCommands, EncodeAll, Load, AllLoadable;
    FeedAppends(w.core, e.db, [EXEC], 0);
    var w' := Next(apply, w, e);
    if w'.synced { EndFeeds(apply, dbnum, w.core.file + w.core.aofbuf, w, e); }
    if w.core.child.Some? && w'.childSynced {
      EndFeeds(apply, dbnum, w.core.child.value + w.core.diff, w, e);
    }
  }

  /** The log a child writes without dropping a deadline represents the data. */
  lemma {:induction false} SnapshotRepresents(apply: Effect, dbnum: nat, w: World, dump: Dump, now: int)
    requires Snapshot(dump, w.data, dbnum, now) && Unexpired(w.data, now) == w.data && w.core.seldb == None
    ensures Represents(apply, dbnum, Temp(dump, now), w)
  {
    hide Replay, Unexpired, RewriteCommands, DumpOk, DumpData, AllLoadable;
    DumpReplay(apply, dbnum, dump, now);
    DecodeEncoded(RewriteCommands(dump, now));
  }

  lemma {:induction false} ForkKeeps(apply: Effect, dbnum: nat, w: World, e: Event)
    requires e.Fork? && Inv(apply, dbnum, w) && Possible(dbnum, w, e)
    ensures Inv(apply, dbnum, Next(apply, w, e))
  {
    hide Represents, Load, Temp, Unexpired, Snapshot;
    var w' := Next(apply, w, e);
    if w'.synced { RepresentsOther(apply, dbnum, w.core.file + w.core.aofbuf, w, w'); }
    if w'.childSynced {
      SnapshotRepresents(apply, dbnum, w', e.dump, e.at);
      assert Temp(e.dump, e.at) + [] == Temp(e.dump, e.at);
    }
  }

  lemma {:induction false} FlushKeeps(apply: Effect, dbnum: nat, w: World, e: Event)
    requires e.Flush? && Inv(apply, dbnum, w) && Possible(dbnum, w, e)
    ensures Inv(apply, dbnum, Next(apply, w, e))
  {
    hide Represents, Load;
    var w' := Next(apply, w, e);
    assert w'.core.file + w'.core.aofbuf == w.core.file + w.core.aofbuf == w'.core.file;
    if w.synced {
      RepresentsOther(apply, dbnum, w.core.file + w.core.aofbuf, w, w');
      RepresentsLoads(apply, dbnum, w'.core.file, w);
    }
    if w.core.child.Some? && w.childSynced {
      RepresentsOther(apply, dbnum, w.core.child.value + w.core.diff, w, w');
    }
  }

  lemma {:induction false} ChildExitKeeps(apply: Effect, dbnum: nat, w: World, e: Event)
    requires e.ChildExit? && Inv(apply, dbnum, w) && Possible(dbnum, w, e)
    ensures Inv(apply, dbnum, Next(apply, w, e))
  {
    hide Represents, Load;
    var w' := Next(apply, w, e);
    if e.exit == Swapped {
      assert w'.core.file == w.core.child.value + w.core.diff;
      if w.childSynced {
        RepresentsLoads(apply, dbnum, w'.core.file, w);
        RepresentsOther(apply, dbnum, w'.core.file, w, w');
        if w'.synced { assert w'.core.file + w'.core.aofbuf == w'.core.file; }
      }
    } else if w.synced {
      RepresentsOther(apply, dbnum, w.core.file + w.core.aofbuf, w, w');
    }
  }

  lemma {:induction false} TurnOffKeeps(apply: Effect, dbnum: nat, w: World, e: Event)
    requires e.TurnOff? && Inv(apply, dbnum, w) && Possible(dbnum, w, e)
    ensures Inv(apply, dbnum, Next(apply, w, e))
  {
    hide Represents, Load;
    var w' := Next(apply, w, e);
    assert w'.core.file + w'.core.aofbuf == w.core.file + w.core.aofbuf == w'.core.file;
    if w.synced {
      RepresentsOther(apply, dbnum, w.core.file + w.core.aofbuf, w, w');
      if !w.txn { RepresentsLoads(apply, dbnum, w'.core.file, w); }
    }
  }

  lemma TurnOnKeeps(apply: Effect, dbnum: nat, w: World, e: Event)
    requires e.TurnOn? && Inv(apply, dbnum, w) && Possible(dbnum, w, e)
    ensures Inv(apply, dbnum, Next(apply, w, e))
  {
    hide Represents, Load, Temp, Unexpired, Snapshot;
    var w' := Next(apply, w, e);
    if w'.synced { RepresentsOther(apply, dbnum, w.core.file + w.core.aofbuf, w, w'); }
    if w'.core.child.Some? && w'.childSynced {
      if w.core.child.Some? {
        RepresentsOther(apply, dbnum, w.core.child.value + w.core.diff, w, w');
      } else {
        SnapshotRepresents(apply, dbnum, w', e.dump, e.at);
        assert Temp(e.dump, e.at) + [] == Temp(e.dump, e.at);
      }
    }
  }

  /** Every event that can happen keeps the invariant. */
  lemma {:induction false} NextKeeps(apply: Effect, dbnum: nat, w: World, e: Event)
    requires Inv(apply, dbnum, w) && Possible(dbnum, w, e)
    ensures Inv(apply, dbnum, Next(apply, w, e))
  {
    hide Inv, Represents, Load, Live, AsRun, Control, Feed, Snapshot, Temp, Fits, Unexpired;
    match e
    case Execute(_, _, _, _) => ExecuteKeeps(apply, dbnum, w, e);
    case Begin(_) => BeginKeeps(apply, dbnum, w, e);
    case End(_, _) => EndKeeps(apply, dbnum, w, e);
    case Flush => FlushKeeps(apply, dbnum, w, e);
    case Fork(_, _) => ForkKeeps(apply, dbnum, w, e);
    case ForkFails =>
    case ChildExit(_) => ChildExitKeeps(apply, dbnum, w, e);
    case TurnOff => TurnOffKeeps(apply, dbnum, w, e);
    case TurnOn(_, _, _, _) => TurnOnKeeps(apply, dbnum, w, e);
  }

  // ---- runs ---------------------------------------------------------------

  ghost predicate PossibleRun(apply: Effect, dbnum: nat, w: World, es: seq<Event>)
    decreases |es|
  {
    es != [] ==> Possible(dbnum, w, es[0]) && PossibleRun(apply, dbnum, Next(apply, w, es[0]), es[1..])
  }

  ghost function Run(apply: Effect, dbnum: nat, w: World, es: seq<Event>): World
    requires PossibleRun(apply, dbnum, w, es)
    decreases |es|
  {
    if es == [] then w else Run(apply, dbnum, Next(apply, w, es[0]), es[1..])
  }

  /** A server that has just loaded `file`, with the log on or off. */
  function Booted(file: bytes, data: Dataset, on: bool): World {
    World(Core(on, on, file, [], None, None, []), data, false, on, false, if on then Some(data) else None)
  }

  lemma {:induction false} RunKeeps(apply: Effect, dbnum: nat, w: World, es: seq<Event>)
    requires Inv(apply, dbnum, w) && PossibleRun(apply, dbnum, w, es)
    ensures Inv(apply, dbnum, Run(apply, dbnum, w, es))
    decreases |es|
  {
    hide Inv, Next;
    if es != [] {
      NextKeeps(apply, dbnum, w, es[0]);
      RunKeeps(apply, dbnum, Next(apply, w, es[0]), es[1..]);
    }
  }

  /**
  Crash consistency. After any run of a server that has loaded its log, or that
  runs without one: a log that is in step, flushed and not yet flushed parts
  together, loads to the data; so does what a child in step leaves, followed by
  the differences; and the file alone loads to the data at the last flush.
  */
  lemma CrashConsistent(apply: Effect, dbnum: nat, file: bytes, data: Dataset, on: bool, es: seq<Event>)
    requires on ==> Load(apply, dbnum, file) == Ok(data)
    requires PossibleRun(apply, dbnum, Booted(file, data, on), es)
    ensures var w := Run(apply, dbnum, Booted(file, data, on), es);
      && (w.synced && !w.txn ==> Load(apply, dbnum, w.core.file + w.core.aofbuf) == Ok(w.data))
      && (w.core.child.Some? && w.childSynced && !w.txn ==>
            Load(apply, dbnum, w.core.child.value + w.core.diff) == Ok(w.data))
      && (w.flushed.Some? ==> Load(apply, dbnum, w.core.file) == Ok(w.flushed.value))
  {
    hide Decode, Replay, Next, Possible;
    var w0 := Booted(file, data, on);
    assert Inv(apply, dbnum, w0) by {
      assert file + [] == file;
    }
    RunKeeps(apply, dbnum, w0, es);
    var w := Run(apply, dbnum, w0, es);
    if w.synced && !w.txn { RepresentsLoads(apply, dbnum, w.core.file + w.core.aofbuf, w); }
    if w.core.child.Some? && w.childSynced && !w.txn {
      RepresentsLoads(apply, dbnum, w.core.child.value + w.core.diff, w);
    }
  }

  /** The events of a log that stays on: a command is fed within the second in
      which it ran, EXEC is always fed, and no key is past its deadline when a
      rewrite starts. Rewrites may fail in every way. */
  ghost predicate Steady(e: Event) {
    match e
    case Execute(_, cmd, now, fedAt) => fedAt == now
    case End(_, fed) => fed
    case Fork(dump, at) => DumpOk(dump) && Unexpired(DumpData(dump), at) == DumpData(dump)
    case TurnOff => false
    case TurnOn(_, _, _, _) => false
    case _ => true
  }

  ghost predicate InStep(w: World) {
    w.core.on && w.core.open && (w.core.child.Some? ==> w.childSynced)
  }

  lemma SteadyStep(apply: Effect, dbnum: nat, w: World, e: Event)
    requires InStep(w) && Steady(e) && Possible(dbnum, w, e)
    ensures var w' := Next(apply, w, e);
      && InStep(w')
      && (w.synced ==> w'.synced)
      && (w.synced && w.flushed.Some? ==> w'.flushed.Some?)
      && (e == ChildExit(Swapped) ==> w'.synced && w'.flushed == Some(w'.data))
  {
    hide Live, AsRun, Control, FeedCommands, EncodeAll, Temp, Fits, Unexpired;
  }

  /** While it stays on, a log that was in step stays so, and a log that was not
      is in step from the first rewrite that completes. */
  lemma {:induction false} SteadyRun(apply: Effect, dbnum: nat, w: World, es: seq<Event>)
    requires InStep(w) && PossibleRun(apply, dbnum, w, es)
    requires forall i :: 0 <= i < |es| ==> Steady(es[i])
    ensures var w' := Run(apply, dbnum, w, es);
      && InStep(w')
      && ((w.synced && w.flushed.Some?) || ChildExit(Swapped) in es ==> w'.synced && w'.flushed.Some?)
    decreases |es|
  {
    hide Next, InStep, Steady, Snapshot, Fits, Control, AsRun;
    if es != [] {
      SteadyStep(apply, dbnum, w, es[0]);
      var w1 := Next(apply, w, es[0]);
      SteadyRun(apply, dbnum, w1, es[1..]);
    }
  }

  /** With the log on since the start: at every moment outside an EXEC the whole
      log loads to the data, and the file loads to the data at the last flush. */
  lemma {:induction false} AlwaysOn(apply: Effect, dbnum: nat, file: bytes, data: Dataset, es: seq<Event>)
    requires Load(apply, dbnum, file) == Ok(data)
    requires PossibleRun(apply, dbnum, Booted(file, data, true), es)
    requires forall i :: 0 <= i < |es| ==> Steady(es[i])
    ensures var w := Run(apply, dbnum, Booted(file, data, true), es);
      && (!w.txn ==> Load(apply, dbnum, w.core.file + w.core.aofbuf) == Ok(w.data))
      && (!w.txn && w.core.child.Some? ==> Load(apply, dbnum, w.core.child.value + w.core.diff) == Ok(w.data))
      && w.flushed.Some? && Load(apply, dbnum, w.core.file) == Ok(w.flushed.value)
  {
    hide Next, Steady, Possible, Load;
    SteadyRun(apply, dbnum, Booted(file, data, true), es);
    CrashConsistent(apply, dbnum, file, data, true, es);
  }

  /** The log switched on later: it loads to the data from the first completed
      rewrite on, whatever the file held before. */
  lemma {:induction false} SinceFirstRewrite(
      apply: Effect, dbnum: nat, file: bytes, data: Dataset, before: seq<Event>, es: seq<Event>)
    requires PossibleRun(apply, dbnum, Booted(file, data, false), before + es)
    requires PossibleRun(apply, dbnum, Booted(file, data, false), before)
    requires InStep(Run(apply, dbnum, Booted(file, data, false), before))
    requires ChildExit(Swapped) in es && forall i :: 0 <= i < |es| ==> Steady(es[i])
    ensures var w := Run(apply, dbnum, Booted(file, data, false), before + es);
      && (!w.txn ==> Load(apply, dbnum, w.core.file + w.core.aofbuf) == Ok(w.data))
      && w.flushed.Some? && Load(apply, dbnum, w.core.file) == Ok(w.flushed.value)
  {
    hide Next, Steady, Possible, Load, InStep;
    var w0 := Booted(file, data, false);
    RunConcat(apply, dbnum, w0, before, es);
    SteadyRun(apply, dbnum, Run(apply, dbnum, w0, before), es);
    CrashConsistent(apply, dbnum, file, data, false, before + es);
  }

  lemma {:induction false} RunConcat(apply: Effect, dbnum: nat, w: World, a: seq<Event>, b: seq<Event>)
    requires PossibleRun(apply, dbnum, w, a + b)
    ensures PossibleRun(apply, dbnum, w, a) && PossibleRun(apply, dbnum, Run(apply, dbnum, w, a), b)
    ensures Run(apply, dbnum, w, a + b) == Run(apply, dbnum, Run(apply, dbnum, w, a), b)
    decreases |a|
  {
    hide Next, Snapshot, Fits, Control, AsRun;
    if a == [] {
      assert a + b == b;
    } else {
      assert (a + b)[1..] == a[1..] + b;
      RunConcat(apply, dbnum, Next(apply, w, a[0]), a[1..], b);
    }
  }

  /** Reading the clock again when an EXPIRE or a SETEX is fed (aof.c:190) moves
      the deadline by what has passed in between, and nothing else. So the log
      agrees with the data exactly when the clock has not moved. */
  lemma ClockDrift(apply: Effect, dbnum: nat, s: State, c: Command, now: int, fedAt: int)
    requires c != [] && !Control(c) && Relative(AsRun(c, now)) && (s.db, c[1]) in Live(apply, s.data, s.db, c, now)
    ensures var k := (s.db, c[1]);
      var ran := Live(apply, s.data, s.db, c, now);
      var replayed := Replay(apply, dbnum, s, Translate(AsRun(c, now), fedAt)).data;
      && ran[k].expire.Some?
      && replayed == ran[k := ran[k].(expire := Some(ran[k].expire.value + fedAt - now))]
      && (replayed == ran <==> fedAt == now)
  {
    hide Upper;
    CapitalNames();
    if Name(c) == EXPIRE {
      ExpireAtReplay(apply, dbnum, s, c[1], fedAt + Atol(c[2]));
    } else {
      SetExReplay(apply, dbnum, s, c[1], c[3], fedAt + Atol(c[2]));
    }
    var ran := Live(apply, s.data, s.db, c, now);
    var k := (s.db, c[1]);
    var e := ran[k].(expire := Some(ran[k].expire.value + fedAt - now));
    if fedAt != now { assert ran[k := e][k] != ran[k]; } else { assert ran[k := e] == ran; }
  }

  const KEY: Key := (0, [107])
  const EXPIRE_ONE: Command := [EXPIRE, [107], [49]]

  /** EXPIRE k 1 run in second 10 and fed in second 11: the deadline is 11 in memory
      and 12 in the log. */
  lemma {:induction false} LateFeed(apply: Effect, dbnum: nat)
    ensures var s := State(0, map[KEY := Entry(Str([118]), None)], false);
      && Live(apply, s.data, 0, EXPIRE_ONE, 10) == map[KEY := Entry(Str([118]), Some(11))]
      && Replay(apply, dbnum, s, Translate(AsRun(EXPIRE_ONE, 10), 11)).data == map[KEY := Entry(Str([118]), Some(12))]
  {
    var s := State(0, map[KEY := Entry(Str([118]), None)], false);
    CapitalNames();
    assert Print(1) == [49];
    AtolPrint(1);
    hide Upper, Print, Atol, Replay;
    assert AsRun(EXPIRE_ONE, 10) == EXPIRE_ONE && !Control(EXPIRE_ONE);
    assert Live(apply, s.data, 0, EXPIRE_ONE, 10) == map[KEY := Entry(Str([118]), Some(11))];
    ClockDrift(apply, dbnum, s, EXPIRE_ONE, 10, 11);
  }

  // ---- attribution --------------------------------------------------------

  /** A command handed to feedAppendOnlyFile; `reset` if appendseldb has been set
      to -1 since the one before. */
  datatype Fed = Fed(db: nat, cmd: Command, now: int, reset: bool)

  function FeedLog(seldb: Option<nat>, fs: seq<Fed>): seq<Command>
    decreases |fs|
  {
    if fs == [] then []
    else FeedCommands(if fs[0].reset then None else seldb, fs[0].db, fs[0].cmd, fs[0].now) +
         FeedLog(Some(fs[0].db), fs[1..])
  }

  /** The commands of a log with the database each applies to. */
  function Attributed(db: nat, cs: seq<Command>): seq<(nat, Command)>
    decreases |cs|
  {
    if cs == [] then []
    else if Name(cs[0]) == SELECT && |cs[0]| == 2 && Atol(cs[0][1]) >= 0 then Attributed(Atol(cs[0][1]), cs[1..])
    else [(db, cs[0])] + Attributed(db, cs[1..])
  }

  function InDb(db: nat, cs: seq<Command>): (r: seq<(nat, Command)>)
    ensures |r| == |cs|
  {
    seq(|cs|, i requires 0 <= i < |cs| => (db, cs[i]))
  }

  function Intended(fs: seq<Fed>): seq<(nat, Command)>
    decreases |fs|
  {
    if fs == [] then [] else InDb(fs[0].db, Translate(fs[0].cmd, fs[0].now)) + Intended(fs[1..])
  }

  lemma {:induction false} AttributedConcat(db: nat, cs: seq<Command>, more: seq<Command>)
    requires forall i :: 0 <= i < |cs| ==> Name(cs[i]) != SELECT
    ensures Attributed(db, cs + more) == InDb(db, cs) + Attributed(db, more)
    decreases |cs|
  {
    hide Name;
    if cs == [] {
      assert cs + more == more;
    } else {
      assert (cs + more)[1..] == cs[1..] + more;
      AttributedConcat(db, cs[1..], more);
      assert InDb(db, cs) == [(db, cs[0])] + InDb(db, cs[1..]);
    }
  }

  lemma TranslatedNames(c: Command, now: int)
    requires Name(c) != SELECT
    ensures forall i :: 0 <= i < |Translate(c, now)| ==> Name(Translate(c, now)[i]) != SELECT
  {
    assert Upper(EXPIREAT) == EXPIREAT && Upper(SET) == SET;
  }

  /** Following the SELECTs of the log gives exactly the commands that were fed, in
      order, each with its database: whenever appendseldb was reset in between. */
  lemma {:induction false} LogFaithful(seldb: Option<nat>, db: nat, fs: seq<Fed>)
    requires forall i :: 0 <= i < |fs| ==> Name(fs[i].cmd) != SELECT
    requires seldb.Some? && fs != [] && !fs[0].reset ==> db == seldb.value
    ensures Attributed(db, FeedLog(seldb, fs)) == Intended(fs)
    decreases |fs|
  {
    hide Name, Translate, InDb;
    if fs != [] {
      var f := fs[0];
      var rest := FeedLog(Some(f.db), fs[1..]);
      var t := Translate(f.cmd, f.now);
      LogFaithful(Some(f.db), f.db, fs[1..]);
      TranslatedNames(f.cmd, f.now);
      AttributedConcat(f.db, t, rest);
      var known := if f.reset then None else seldb;
      if known == Some(f.db) {
        assert FeedLog(seldb, fs) == t + rest by { assert [] + t == t; }
      } else {
        var sel := [SELECT, Print(f.db)];
        assert FeedLog(seldb, fs) == [sel] + (t + rest);
        AttributedSelect(db, f.db, t + rest);
      }
    }
  }

  lemma AttributedSelect(db: nat, other: nat, rest: seq<Command>)
    ensures Attributed(db, [[SELECT, Print(other)]] + rest) == Attributed(other, rest)
  {
    hide Name, Print, Atol;
    SelectLine(other);
    assert ([[SELECT, Print(other)]] + rest)[1..] == rest;
  }

  lemma SelectLine(db: nat)
    ensures var c := [SELECT, Print(db)]; Name(c) == SELECT && Atol(c[1]) == db
  {
    AtolPrint(db);
    assert Upper(SELECT) == SELECT;
  }
}
