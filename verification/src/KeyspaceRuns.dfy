/** Runs over all the databases of a server, with the commands that touch more than one. */
module KeyspaceRuns {
  import opened Common
  import opened KeyspaceModel

  /** A command on the database that is selected, MOVE to the database named by its
      argument, or FLUSHALL. */
  datatype Cmd = On(db: nat, op: Op) | MoveKey(db: nat, key: bytes, to: int) | FlushAll

  /** What a command does to the databases. MOVE refuses a database that does not
      exist and the one the key is in. */
  function Execute(dbs: seq<Db>, cmd: Cmd, now: int): (r: (seq<Db>, Reply))
    ensures |r.0| == |dbs|
  {
    match cmd
    case On(i, op) =>
      if i >= |dbs| then (dbs, Refused)
      else var (db, reply) := Perform(dbs[i], op, now); (dbs[i := db], reply)
    case MoveKey(i, k, to) =>
      if i >= |dbs| || to < 0 || to >= |dbs| || to == i then (dbs, Refused)
      else
        var (src, dst, reply) := Move(dbs[i], dbs[to], k, now);
        (dbs[i := src][to := dst], reply)
    case FlushAll => (seq(|dbs|, i requires 0 <= i < |dbs| => Db(map[], map[], dbs[i].next)), Done)
  }

  /** The same where keys vanish at their deadlines. */
  function IdealExecute(vs: seq<View>, cmd: Cmd, now: int): (r: (seq<View>, Reply))
    ensures |r.0| == |vs|
  {
    match cmd
    case On(i, op) =>
      if i >= |vs| then (vs, Refused)
      else var (v, reply) := Ideal(vs[i], op, now); (vs[i := v], reply)
    case MoveKey(i, k, to) =>
      if i >= |vs| || to < 0 || to >= |vs| || to == i then (vs, Refused)
      else if k !in vs[i] || k in vs[to] then (vs, Num(0))
      else (vs[i := vs[i] - {k}][to := vs[to][k := Entry(vs[i][k].value, None)]], Num(1))
    case FlushAll => (seq(|vs|, _ => map[]), Done)
  }

  predicate AllSane(dbs: seq<Db>) {
    forall i :: 0 <= i < |dbs| ==> Sane(dbs[i])
  }

  function Views(dbs: seq<Db>, now: int): (r: seq<View>)
    ensures |r| == |dbs|
  {
    seq(|dbs|, i requires 0 <= i < |dbs| => ViewOf(dbs[i], now))
  }

  function AllAlive(vs: seq<View>, now: int): (r: seq<View>)
    ensures |r| == |vs|
  {
    seq(|vs|, i requires 0 <= i < |vs| => Alive(vs[i], now))
  }

  predicate UnluckyIn(dbs: seq<Db>, cmd: Cmd, now: int) {
    cmd.On? && cmd.db < |dbs| && Unlucky(dbs[cmd.db], cmd.op, now)
  }

  lemma MoveSane(dbs: seq<Db>, i: nat, k: bytes, to: int, now: int)
    requires AllSane(dbs)
    ensures var cmd := MoveKey(i, k, to); var (r, reply) := Execute(dbs, cmd, now);
      AllSane(r) && (Views(r, now), reply) == IdealExecute(Views(dbs, now), cmd, now)
  {
    hide Sane, ViewOf, Move;
    if i < |dbs| && 0 <= to < |dbs| && to != i {
      MoveRefines(dbs[i], dbs[to], k, now);
      var r := Execute(dbs, MoveKey(i, k, to), now).0;
      var vs := Views(dbs, now);
      assert Views(r, now) == vs[i := ViewOf(r[i], now)][to := ViewOf(r[to], now)];
      if k !in vs[i] || k in vs[to] {
        assert vs[i := vs[i]][to := vs[to]] == vs;
      }
    }
  }

  /** Every command answers as in the ideal server if and only if it is not unlucky,
      and then it leaves all databases looking as there. */
  lemma {:induction false} ExecuteRefines(dbs: seq<Db>, cmd: Cmd, now: int)
    requires AllSane(dbs) && now >= 0
    ensures var (r, reply) := Execute(dbs, cmd, now);
      var (vs, ideal) := IdealExecute(Views(dbs, now), cmd, now);
      && AllSane(r)
      && (reply == ideal <==> !UnluckyIn(dbs, cmd, now))
      && (Views(r, now) == vs || UnluckyIn(dbs, cmd, now))
  {
    hide Sane, ViewOf, Perform, Ideal, Unlucky, Move;
    match cmd
    case On(i, op) =>
      if i < |dbs| {
        Refines(dbs[i], op, now);
        var db := Perform(dbs[i], op, now).0;
        assert Views(dbs[i := db], now) == Views(dbs, now)[i := ViewOf(db, now)];
      }
    case MoveKey(i, k, to) => MoveSane(dbs, i, k, to, now);
    case FlushAll =>
      var r := Execute(dbs, cmd, now).0;
      forall i | 0 <= i < |dbs| ensures Sane(r[i]) && Views(r, now)[i] == map[] { FlushKeeps(dbs[i], now); }
  }

  // ---- runs -------------------------------------------------------------------

  /** A command and the time at which it is performed. */
  datatype Step = Step(cmd: Cmd, now: int)

  /** The clock starts at `from` and does not run backwards. */
  predicate Monotone(steps: seq<Step>, from: int)
    decreases |steps|
  {
    steps != [] ==> from <= steps[0].now && Monotone(steps[1..], steps[0].now)
  }

  /** The time after the last step. */
  function EndTime(steps: seq<Step>, from: int): int {
    if steps == [] then from else steps[|steps| - 1].now
  }

  /** The databases after the steps, and the replies. */
  function Run(dbs: seq<Db>, steps: seq<Step>): (seq<Db>, seq<Reply>)
    decreases |steps|
  {
    if steps == [] then (dbs, [])
    else
      var (dbs1, reply) := Execute(dbs, steps[0].cmd, steps[0].now);
      var (r, replies) := Run(dbs1, steps[1..]);
      (r, [reply] + replies)
  }

  function IdealRun(vs: seq<View>, steps: seq<Step>): (seq<View>, seq<Reply>)
    decreases |steps|
  {
    if steps == [] then (vs, [])
    else
      var (vs1, reply) := IdealExecute(AllAlive(vs, steps[0].now), steps[0].cmd, steps[0].now);
      var (r, replies) := IdealRun(vs1, steps[1..]);
      (r, [reply] + replies)
  }

  /** No step of the run is unlucky. */
  predicate Lucky(dbs: seq<Db>, steps: seq<Step>)
    decreases |steps|
  {
    steps != [] ==>
      && !UnluckyIn(dbs, steps[0].cmd, steps[0].now)
      && Lucky(Execute(dbs, steps[0].cmd, steps[0].now).0, steps[1..])
  }

  lemma TimePassesIn(db: Db, now: int, later: int)
    requires now <= later
    ensures ViewOf(db, later) == Alive(ViewOf(db, now), later)
  {
  }

  lemma TimePasses(dbs: seq<Db>, now: int, later: int)
    requires now <= later
    ensures Views(dbs, later) == AllAlive(Views(dbs, now), later)
  {
    hide ViewOf, Alive;
    forall i | 0 <= i < |dbs| ensures ViewOf(dbs[i], later) == Alive(ViewOf(dbs[i], now), later) {
      TimePassesIn(dbs[i], now, later);
    }
  }

  /** In every state of every run, lucky or not, each database holds deadlines only
      for keys it has, under the same key objects. */
  lemma {:induction false} SaneRuns(dbs: seq<Db>, steps: seq<Step>, from: int)
    requires AllSane(dbs) && from >= 0 && Monotone(steps, from)
    ensures AllSane(Run(dbs, steps).0)
    decreases |steps|
  {
    hide AllSane, Execute;
    if steps != [] {
      ExecuteRefines(dbs, steps[0].cmd, steps[0].now);
      SaneRuns(Execute(dbs, steps[0].cmd, steps[0].now).0, steps[1..], steps[0].now);
    }
  }

  /**
  Over a whole run, whatever the expire cycle draws and whenever it runs: all replies
  are those of a server whose keys vanish at their deadlines if and only if no step
  is unlucky, and then all databases end up looking as there.
  */
  lemma {:induction false} InstantExpiry(dbs: seq<Db>, steps: seq<Step>, from: int)
    requires AllSane(dbs) && from >= 0 && Monotone(steps, from)
    ensures var (r, replies) := Run(dbs, steps);
      var (vs, ideal) := IdealRun(Views(dbs, from), steps);
      && (replies == ideal <==> Lucky(dbs, steps))
      && (Lucky(dbs, steps) ==> Views(r, EndTime(steps, from)) == vs)
    decreases |steps|
  {
    hide AllSane, Views, Execute, IdealExecute, AllAlive, UnluckyIn;
    if steps != [] {
      var cmd, now := steps[0].cmd, steps[0].now;
      var (dbs1, reply) := Execute(dbs, cmd, now);
      var (vs1, ideal) := IdealExecute(Views(dbs, now), cmd, now);
      TimePasses(dbs, from, now);
      ExecuteRefines(dbs, cmd, now);
      var rest, idealRest := Run(dbs1, steps[1..]).1, IdealRun(vs1, steps[1..]).1;
      if reply == ideal {
        InstantExpiry(dbs1, steps[1..], now);
        assert ([reply] + rest)[1..] == rest && ([ideal] + idealRest)[1..] == idealRest;
      } else {
        assert ([reply] + rest)[0] != ([ideal] + idealRest)[0];
      }
    }
  }

  // ---- a run that is not lucky ------------------------------------------------------

  const KEY: bytes := [107]

  /** SET, EXPIRE 1, and DEL two seconds later. */
  const LATE_DEL: seq<Step> := [
    Step(On(0, Set(KEY, [118])), 0), Step(On(0, Expire(KEY, 1)), 0), Step(On(0, Del(KEY)), 2)]

  /** The databases on the way. */
  lemma LateDelStates() returns (d1: Db, d2: Db)
    ensures Execute([EMPTY_DB], LATE_DEL[0].cmd, 0) == ([d1], Done)
    ensures Execute([d1], LATE_DEL[1].cmd, 0) == ([d2], Num(1))
    ensures Stale(d2, KEY, 2) && Execute([d2], LATE_DEL[2].cmd, 2).1 == Num(1)
  {
    d1 := Db(map[KEY := Slot(0, [118])], map[], 1);
    d2 := Db(map[KEY := Slot(0, [118])], map[KEY := Deadline(0, 1)], 1);
    assert SetKey(EMPTY_DB, KEY, [118], 0) == d1 && [EMPTY_DB][0 := d1] == [d1];
    assert ExpireKey(d1, KEY, 1, 0) == (d2, Num(1)) && [d1][0 := d2] == [d2];
  }

  /** DEL reports a key that has been past its deadline for a second as deleted; with
      keys that vanish in time it would not. */
  lemma {:induction false} LateDel()
    ensures AllSane([EMPTY_DB]) && Monotone(LATE_DEL, 0) && !Lucky([EMPTY_DB], LATE_DEL)
    ensures Run([EMPTY_DB], LATE_DEL).1 == [Done, Num(1), Num(1)]
    ensures Run([EMPTY_DB], LATE_DEL).1 != IdealRun(Views([EMPTY_DB], 0), LATE_DEL).1
  {
    hide Execute, Stale;
    var d1, d2 := LateDelStates();
    var d3 := Execute([d2], LATE_DEL[2].cmd, 2).0;
    var s0, s1, s2 := LATE_DEL[0], LATE_DEL[1], LATE_DEL[2];
    assert LATE_DEL == [s0, s1, s2];
    Cons([EMPTY_DB], s0, [s1, s2]);
    Cons([d1], s1, [s2]);
    Cons([d2], s2, []);
    assert UnluckyIn([d2], s2.cmd, s2.now);
    InstantExpiry([EMPTY_DB], LATE_DEL, 0);
  }

  lemma Cons(dbs: seq<Db>, s: Step, rest: seq<Step>)
    ensures Run(dbs, [s] + rest).1 == [Execute(dbs, s.cmd, s.now).1] + Run(Execute(dbs, s.cmd, s.now).0, rest).1
    ensures Lucky(dbs, [s] + rest) <==>
      !UnluckyIn(dbs, s.cmd, s.now) && Lucky(Execute(dbs, s.cmd, s.now).0, rest)
    ensures Monotone([s] + rest, s.now) <==> Monotone(rest, s.now)
  {
    hide Execute, UnluckyIn;
    assert ([s] + rest)[1..] == rest;
  }
}
