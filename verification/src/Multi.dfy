/** multi.c and the part of redis.c that calls it, working on the server's lists. */
module Multi {
  import opened Common
  import opened WatchIndex
  import opened MultiModel
  import opened MultiRuns

  /** listSearchKey and listDelNode on a list of clients. */
  method DeleteClient(clients: seq<nat>, c: nat) returns (r: seq<nat>)
    ensures r == RemoveFirst(clients, c)
  {
    hide RemoveFirst;
    var i := 0;
    assert clients[0..] == clients;
    while i < |clients| && clients[i] != c
      invariant i <= |clients|
      invariant RemoveFirst(clients, c) == clients[..i] + RemoveFirst(clients[i..], c)
    {
      RemoveStep(clients, c, i);
      i := i + 1;
    }
    RemoveStep(clients, c, i);
    r := if i < |clients| then clients[..i] + clients[i + 1..] else clients[..i];
  }

  lemma RemoveStep(clients: seq<nat>, c: nat, i: nat)
    requires i <= |clients|
    ensures clients[..i] + RemoveFirst(clients[i..], c) ==
      if i == |clients| then clients[..i]
      else if clients[i] == c then clients[..i] + clients[i + 1..]
      else clients[..i + 1] + RemoveFirst(clients[i + 1..], c)
  {
    if i < |clients| {
      assert clients[i..][1..] == clients[i + 1..];
    }
  }

  class Server {
    var conns: map<nat, Conn>
    var watched: map<nat, seq<Pair>>
    var watchers: map<Pair, seq<nat>>
    var dirtyCas: set<nat>
    var dirty: int
    ghost var log: seq<Line>
    ghost var history: seq<Moment>
    ghost var executed: seq<(nat, Cmd)>

    ghost function Ix(): Index
      reads this
    {
      Index(watched, watchers, dirtyCas)
    }

    ghost function Now(): World
      reads this
    {
      World(conns, Ix(), dirty, log, history, executed)
    }

    constructor ()
      ensures Now() == IDLE && Inv(Now())
    {
      conns, watched, watchers, dirtyCas, dirty := map[], map[], map[], {}, 0;
      log, history, executed := [], [], [];
      new;
      TellsFirst();
    }

    /** watchForKey. */
    method WatchForKey(c: nat, k: Pair)
      modifies this`watched, this`watchers, this`history
      ensures Now() == Happen(old(Now()), Watched(c, k))
    {
      history := history + [Watched(c, k)];
      var own: seq<Pair> := if c in watched then watched[c] else [];
      var i := 0;
      while i < |own|
        invariant i <= |own| && k !in own[..i]
      {
        if own[i] == k {
          assert Watches(Ix(), c, k);
          return;
        }
        assert own[..i + 1] == own[..i] + [own[i]];
        i := i + 1;
      }
      assert own[..i] == own;
      var clients: seq<nat> := if k in watchers then watchers[k] else [];
      watchers := watchers[k := clients + [c]];
      watched := watched[c := own + [k]];
    }

    /** unwatchAllKeys. */
    method UnwatchAllKeys(c: nat)
      requires IndexOk(Ix())
      modifies this`watched, this`watchers
      ensures Ix() == UnwatchAll(old(Ix()), c)
    {
      hide NoDup, Watches, Listed;
      while c in watched && |watched[c]| > 0
        invariant IndexOk(Ix())
        invariant UnwatchAll(Ix(), c) == UnwatchAll(old(Ix()), c)
        invariant dirtyCas == old(dirtyCas)
        decreases if c in watched then |watched[c]| else 0
      {
        UnwatchFirstOk(Ix(), c);
        assert UnwatchAll(Ix(), c) == UnwatchAll(UnwatchFirst(Ix(), c), c);
        UnwatchOne(c);
      }
    }

    /** The body of the loop of unwatchAllKeys. */
    method UnwatchOne(c: nat)
      requires c in watched && watched[c] != [] && Listed(Ix(), c, watched[c][0])
      modifies this`watched, this`watchers
      ensures Ix() == UnwatchFirst(old(Ix()), c)
    {
      var wk := watched[c][0];
      var clients := DeleteClient(watchers[wk], c);
      if |clients| == 0 {
        watchers := watchers - {wk};
      } else {
        watchers := watchers[wk := clients];
      }
      watched := watched[c := watched[c][1..]];
    }

    /** touchWatchedKey. */
    method TouchWatchedKey(k: Pair)
      modifies this`dirtyCas, this`history
      ensures Now() == Happen(old(Now()), Touched(k))
    {
      history := history + [Touched(k)];
      if k !in watchers {
        return;
      }
      var clients := watchers[k];
      var i := 0;
      while i < |clients|
        invariant i <= |clients|
        invariant dirtyCas == old(dirtyCas) + Members(clients[..i]) && history == old(history) + [Touched(k)]
      {
        assert clients[..i + 1] == clients[..i] + [clients[i]];
        dirtyCas := dirtyCas + {clients[i]};
        i := i + 1;
      }
      assert clients[..i] == clients;
    }

    /** touchWatchedKeysOnFlush; `present` are the keys there are. The order in
        which the clients are visited plays no part. */
    method TouchWatchedKeysOnFlush(db: Option<nat>, present: set<Pair>)
      modifies this`dirtyCas, this`history
      ensures Now() == Happen(old(Now()), FlushedDb(db, present))
    {
      hide LosesKey, Losers;
      history := history + [FlushedDb(db, present)];
      ghost var ix, done := Ix(), {};
      var lists := watched;
      var rest := lists.Keys;
      LosersNone(ix, db, present);
      while rest != {}
        invariant rest <= lists.Keys && done + rest == lists.Keys
        invariant history == old(history) + [FlushedDb(db, present)]
        invariant dirtyCas == ix.dirty + Losers(ix, done, db, present)
        decreases |rest|
      {
        var d :| d in rest;
        var loses := WillLose(lists[d], db, present);
        LosesWhen(ix, d, db, present);
        LosersMore(ix, done, d, db, present);
        rest := rest - {d};
        done := done + {d};
        if loses {
          dirtyCas := dirtyCas + {d};
        }
      }
      assert done == lists.Keys;
    }

    /** Feeding by call: only what has raised server.dirty. */
    ghost method Feed(before: int, line: Line)
      modifies this`log
      ensures Now() == Fed(old(Now()), before, line)
    {
      if dirty - before > 0 {
        log := log + [line];
      }
    }

    /** unwatchCommand, and freeClient as far as the index goes. */
    method Forget(c: nat)
      requires IndexOk(Ix())
      modifies this`watched, this`watchers, this`dirtyCas, this`history
      ensures Now() == Happen(old(Now()), Forgot(c))
    {
      hide UnwatchAll;
      UnwatchAllKeys(c);
      dirtyCas := dirtyCas - {c};
      history := history + [Forgot(c)];
    }

    /** The keys a data command modifies are touched one by one. */
    method SignalModified(touched: seq<Pair>)
      modifies this`dirtyCas, this`history
      ensures Now() == TouchAll(old(Now()), touched)
    {
      hide React;
      var i := 0;
      assert touched[0..] == touched;
      while i < |touched|
        invariant i <= |touched|
        invariant TouchAll(Now(), touched[i..]) == TouchAll(old(Now()), touched)
        invariant conns == old(conns) && watched == old(watched) && watchers == old(watchers) &&
                  dirty == old(dirty) && log == old(log) && executed == old(executed)
      {
        assert touched[i..][1..] == touched[i + 1..];
        TouchWatchedKey(touched[i]);
        i := i + 1;
      }
    }

    /** call, for a command that is not about transactions. */
    method CallBasic(c: nat, cmd: Cmd)
      requires IndexOk(Ix()) && c in conns
      requires !Immediate(cmd)
      modifies this
      ensures Now() == Basic(old(Now()), c, cmd)
    {
      hide React, TouchAll, IndexOk, CInt, Deletions;
      var before := dirty;
      executed := executed + [(c, cmd)];
      ghost var w1 := Now();
      match cmd {
        case Unwatch => Forget(c);
        case Select(db) => conns := conns[c := conns[c].(db := db)];
        case Data(_, touched, changes, expired) =>
          SignalModified(touched);
          dirty := dirty + changes;
          TouchAllFrame(w1, touched);
          log := log + Deletions(expired);
          Feed(before, Plain(c, conns[c].db, cmd));
        case Flush(_, all, present, removed, saves) =>
          TouchWatchedKeysOnFlush(if all then None else Some(conns[c].db), present);
          dirty := dirty + removed;
          if all {
            if saves {
              var savedDirty := CInt(dirty);
              dirty := savedDirty;
            }
            dirty := dirty + 1;
          }
          Feed(before, Plain(c, conns[c].db, cmd));
        case Assign(_, touched, value) =>
          SignalModified(touched);
          dirty := value;
          TouchAllFrame(w1, touched);
          Feed(before, Plain(c, conns[c].db, cmd));
        case _ =>
      }
    }

    /** The loop of execCommand. */
    method ExecQueue(c: nat, q: seq<Cmd>)
      requires Tells(Ix(), history) && c in conns && Queueable(q)
      modifies this
      ensures Now() == RunQueue(old(Now()), c, q)
    {
      hide Tells, Basic, Immediate;
      var j := 0;
      assert q[0..] == q;
      while j < |q|
        invariant j <= |q| && c in conns && Tells(Ix(), history)
        invariant RunQueue(Now(), c, q[j..]) == RunQueue(old(Now()), c, q)
      {
        assert q[j..][1..] == q[j + 1..];
        assert !Immediate(q[j]);
        BasicConns(Now(), c, q[j]);
        BasicQuiet(Now(), c, q[j]);
        TellsOk(Ix(), history);
        CallBasic(c, q[j]);
        j := j + 1;
      }
    }

    /** The end of a transaction that is not run: the flags first, then the pairs. */
    method Abandon(c: nat)
      requires Tells(Ix(), history) && c in conns
      modifies this`conns, this`watched, this`watchers, this`dirtyCas, this`history
      ensures Now() == Happen(Closed(old(Now()), c), Forgot(c))
    {
      hide Tells, IndexOk, UnwatchAll;
      TellsOk(Ix(), history);
      conns := conns[c := conns[c].(multi := false, queue := [])];
      DirtyAside(Ix(), dirtyCas - {c});
      dirtyCas := dirtyCas - {c};
      UnwatchAllDirty(Ix(), c);
      ghost var ix := Ix();
      UnwatchAllKeys(c);
      history := history + [Forgot(c)];
      assert ix.dirty - {c} == ix.dirty;
    }

    /** execCommand and the feeding of EXEC by call. */
    method ExecCommand(c: nat)
      requires Inv(Now()) && c in conns
      modifies this
      ensures Now() == ExecStep(old(Now()), c)
    {
      hide Tells, IndexOk, React, RunQueue, UnwatchAll, Queueable;
      var before := dirty;
      if !conns[c].multi {
        return;
      }
      if c in dirtyCas {
        Abandon(c);
        return;
      }
      log := log + [Opening(c, conns[c].db)];
      ghost var w0 := Now();
      TellsOk(Ix(), history);
      UnwatchAllDirty(Ix(), c);
      UnwatchAllKeys(c);
      history := history + [Forgot(c)];
      assert Now() == Happen(w0, Forgot(c)) by { ForgetClean(w0.ix, c); }
      HappenQuiet(w0, Forgot(c));
      var q := conns[c].queue;
      RunQueueConns(Now(), c, q);
      ExecQueue(c, q);
      conns := conns[c := conns[c].(multi := false, queue := [])];
      dirtyCas := dirtyCas - {c};
      dirty := dirty + 1;
      Feed(before, Closing(c, conns[c].db));
    }

    /** watchCommand outside MULTI. */
    method WatchCommand(c: nat, keys: seq<bytes>)
      requires c in conns
      modifies this`watched, this`watchers, this`history
      ensures Now() == WatchKeys(old(Now()), c, conns[c].db, keys)
    {
      hide React;
      var db := conns[c].db;
      var j := 0;
      assert keys[0..] == keys;
      while j < |keys|
        invariant j <= |keys|
        invariant WatchKeys(Now(), c, db, keys[j..]) == WatchKeys(old(Now()), c, db, keys)
        invariant conns == old(conns)
      {
        assert keys[j..][1..] == keys[j + 1..];
        WatchForKey(c, (db, keys[j]));
        j := j + 1;
      }
    }

    /** The end of processCommand: queue the command or call it. */
    method ProcessCommand(c: nat, cmd: Cmd)
      requires Inv(Now()) && c in conns
      modifies this
      ensures Now() == Request(old(Now()), c, cmd) && Inv(Now())
    {
      hide Tells, React, ExecStep, Basic, WatchKeys, Queueable, IndexOk;
      RequestKeeps(Now(), c, cmd);
      TellsOk(Ix(), history);
      if conns[c].multi && !Immediate(cmd) {
        conns := conns[c := conns[c].(queue := conns[c].queue + [cmd])];
      } else {
        match cmd {
          case Watch(keys) =>
            if !conns[c].multi { WatchCommand(c, keys); }
          case Multi =>
            if !conns[c].multi { conns := conns[c := conns[c].(multi := true)]; }
          case Discard =>
            if conns[c].multi { Abandon(c); }
          case Exec => ExecCommand(c);
          case _ => CallBasic(c, cmd);
        }
      }
    }

    /** createClient. */
    method Connect(c: nat)
      requires Inv(Now()) && c !in conns
      modifies this`conns
      ensures Now() == Next(old(Now()), Connected(c)) && Inv(Now())
    {
      hide Tells;
      NextKeeps(Now(), Connected(c));
      conns := conns[c := Conn(0, false, [])];
    }

    /** The end of a background save (rdb.c:1069). */
    method BackgroundSaveDone(changes: int)
      requires Inv(Now())
      modifies this`dirty
      ensures Now() == Next(old(Now()), Saved(changes)) && Inv(Now())
    {
      hide Tells;
      NextKeeps(Now(), Saved(changes));
      dirty := dirty - changes;
    }

    /** The expire cycle, as far as the log goes. */
    method ActiveExpire(ghost expired: seq<Pair>)
      requires Inv(Now())
      modifies this`log
      ensures Now() == Next(old(Now()), Cycle(expired)) && Inv(Now())
    {
      hide Tells;
      NextKeeps(Now(), Cycle(expired));
      log := log + Deletions(expired);
    }

    /** freeClient. */
    method FreeClient(c: nat)
      requires Inv(Now()) && c in conns
      modifies this
      ensures Now() == Next(old(Now()), Gone(c)) && Inv(Now())
    {
      hide Tells, React, IndexOk;
      NextKeeps(Now(), Gone(c));
      TellsOk(Ix(), history);
      Forget(c);
      conns := conns - {c};
    }
  }

  /** The inner loop of touchWatchedKeysOnFlush. */
  method WillLose(pairs: seq<Pair>, db: Option<nat>, present: set<Pair>) returns (loses: bool)
    ensures loses <==> exists k :: k in pairs && Flushes(db, present, k)
  {
    loses := false;
    var i := 0;
    while i < |pairs|
      invariant i <= |pairs|
      invariant loses <==> exists j :: 0 <= j < i && Flushes(db, present, pairs[j])
    {
      if db == None || pairs[i].0 == db.value {
        if pairs[i] in present {
          loses := true;
        }
      }
      i := i + 1;
    }
    if k :| k in pairs && Flushes(db, present, k) {
      var j :| 0 <= j < |pairs| && pairs[j] == k;
      assert Flushes(db, present, pairs[j]);
    }
  }

  lemma LosesWhen(ix: Index, c: nat, db: Option<nat>, present: set<Pair>)
    requires c in ix.watched
    ensures LosesKey(ix, c, db, present) <==> exists k :: k in ix.watched[c] && Flushes(db, present, k)
  {
  }

  lemma LosersNone(ix: Index, db: Option<nat>, present: set<Pair>)
    ensures Losers(ix, {}, db, present) == {}
  {
  }

  lemma LosersMore(ix: Index, clients: set<nat>, d: nat, db: Option<nat>, present: set<Pair>)
    ensures Losers(ix, clients + {d}, db, present) ==
            Losers(ix, clients, db, present) + if LosesKey(ix, d, db, present) then {d} else {}
  {
    hide LosesKey;
  }

  lemma TellsOk(ix: Index, h: seq<Moment>)
    requires Tells(ix, h)
    ensures IndexOk(ix)
  {
  }

  /** For a client that is not dirty, unwatching is all there is to forgetting. */
  lemma ForgetClean(ix: Index, c: nat)
    requires c !in ix.dirty
    ensures React(ix, Forgot(c)) == UnwatchAll(ix, c)
  {
    UnwatchAllDirty(ix, c);
    assert ix.dirty - {c} == ix.dirty;
  }
}
