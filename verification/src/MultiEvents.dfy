/**
WATCH, MULTI and EXEC told from the list of events alone: what each connection is
doing, which pairs it watches, which commands run, and that an EXEC is refused if
and only if a command that ran has changed a pair since the client asked to watch
it. Neither the index nor what the model records of the past appears here; the
lemmas at the end say that every run agrees.
*/
module MultiEvents {
  import opened Common
  import opened WatchIndex
  import opened MultiModel
  import opened MultiRuns

  /** A command that runs, with its client and the database that is selected. */
  datatype Step = Step(client: nat, db: nat, cmd: Cmd)

  /** The database selected behind `q`: that of its last SELECT. */
  function Chosen(db: nat, q: seq<Cmd>): nat {
    if q == [] then db
    else if q[|q| - 1].Select? then q[|q| - 1].db
    else Chosen(db, q[..|q| - 1])
  }

  /** A queue that runs. */
  function Steps(c: nat, db: nat, q: seq<Cmd>): (xs: seq<Step>)
    ensures |xs| == |q|
  {
    seq(|q|, i requires 0 <= i < |q| => Step(c, Chosen(db, q[..i]), q[i]))
  }

  /** The command changes the pair, or removes it with its database or with all. */
  predicate Alters(x: Step, k: Pair) {
    match x.cmd
    case Data(_, touched, _, _) => k in touched
    case Assign(_, touched, _) => k in touched
    case Flush(_, all, present, _, _) => k in present && (all || k.0 == x.db)
    case _ => false
  }

  ghost predicate AnyAlters(xs: seq<Step>, ks: set<Pair>) {
    exists n, k :: 0 <= n < |xs| && k in ks && Alters(xs[n], k)
  }

  /** A connection after a request, `refused` being whether an EXEC would run nothing. */
  function Answered(v: Conn, cmd: Cmd, refused: bool): Conn {
    if v.multi then
      match cmd
      case Exec => Conn(if refused then v.db else Chosen(v.db, v.queue), false, [])
      case Discard => Conn(v.db, false, [])
      case Multi => v
      case Watch(_) => v
      case _ => Conn(v.db, true, v.queue + [cmd])
    else
      match cmd
      case Multi => Conn(v.db, true, [])
      case Select(db) => Conn(db, false, v.queue)
      case _ => v
  }

  /** The connection of `c` after the events. */
  ghost function View(c: nat, es: seq<Event>): Option<Conn>
    decreases |es|, 0
  {
    if es == [] then None
    else
      var p, e := es[..|es| - 1], es[|es| - 1];
      match e
      case Connected(d) => if d == c then Some(Conn(0, false, [])) else View(c, p)
      case Gone(d) => if d == c then None else View(c, p)
      case Asked(d, cmd) =>
        if d != c || View(c, p).None? then View(c, p) else Some(Answered(View(c, p).value, cmd, Refused(c, p)))
      case _ => View(c, p)
  }

  /** The pairs that `c` asks to watch at event `e`, after the events `p`: outside a
      transaction, and in the database it has selected. */
  ghost function Wanted(c: nat, p: seq<Event>, e: Event): set<Pair>
    decreases |p|, 3
  {
    if e.Asked? && e.client == c && e.cmd.Watch? && View(c, p).Some? && !View(c, p).value.multi then
      set key | key in e.cmd.keys :: (View(c, p).value.db, key)
    else {}
  }

  /** Event `e` makes `c` forget what it watches: its transaction ends, or it sends
      UNWATCH outside of one, or it disconnects. */
  ghost predicate Forgets(c: nat, p: seq<Event>, e: Event)
    decreases |p|, 3
  {
    || e == Gone(c)
    || (&& e.Asked? && e.client == c && View(c, p).Some?
        && if View(c, p).value.multi then e.cmd.Exec? || e.cmd.Discard? else e.cmd.Unwatch?)
  }

  /** The commands that run at event `e`: the whole queue of an EXEC that is not
      refused, or a command that is sent outside a transaction. */
  ghost function Ran(p: seq<Event>, e: Event): seq<Step>
    decreases |p|, 3
  {
    if !e.Asked? || View(e.client, p).None? then []
    else
      var v := View(e.client, p).value;
      if v.multi then
        if e.cmd.Exec? && !Refused(e.client, p) then Steps(e.client, v.db, v.queue) else []
      else if e.cmd.Exec? || e.cmd.Discard? || e.cmd.Multi? || e.cmd.Watch? then []
      else [Step(e.client, v.db, e.cmd)]
  }

  /** `c` has not forgotten behind event `i`. */
  ghost predicate Kept(c: nat, es: seq<Event>, i: nat)
    decreases |es|, 1
  {
    forall l :: i < l < |es| ==> !Forgets(c, es[..l], es[l])
  }

  /** An EXEC of `c` would run nothing: at event `i` it asked for a pair and it has not
      forgotten since, and a command that ran at event `j` has changed the pair. */
  ghost predicate Refused(c: nat, es: seq<Event>)
    decreases |es|, 2
  {
    exists i, j :: 0 <= i < j < |es|
      && Kept(c, es, i) && AnyAlters(Ran(es[..j], es[j]), Wanted(c, es[..i], es[i]))
  }

  ghost predicate Watching(c: nat, k: Pair, es: seq<Event>) {
    exists i :: 0 <= i < |es| && k in Wanted(c, es[..i], es[i]) && Kept(c, es, i)
  }

  /** Everything that runs. */
  ghost function AllRan(es: seq<Event>): seq<Step> {
    if es == [] then [] else AllRan(es[..|es| - 1]) + Ran(es[..|es| - 1], es[|es| - 1])
  }

  function Commands(xs: seq<Step>): (r: seq<(nat, Cmd)>)
    ensures |r| == |xs|
  {
    seq(|xs|, i requires 0 <= i < |xs| => (xs[i].client, xs[i].cmd))
  }

  // ---- one more event -------------------------------------------------------

  lemma Earlier(p: seq<Event>, e: Event, l: nat)
    requires l < |p|
    ensures (p + [e])[..l] == p[..l] && (p + [e])[l] == p[l]
  {
  }

  lemma Latest(p: seq<Event>, e: Event)
    ensures (p + [e])[..|p|] == p && (p + [e])[|p|] == e
  {
  }

  lemma KeptMore(c: nat, p: seq<Event>, e: Event, i: nat)
    requires i < |p|
    ensures Kept(c, p + [e], i) <==> Kept(c, p, i) && !Forgets(c, p, e)
  {
    hide Forgets;
    var es := p + [e];
    Latest(p, e);
    forall l | i < l < |p| ensures Forgets(c, es[..l], es[l]) == Forgets(c, p[..l], p[l]) { Earlier(p, e, l); }
    if Kept(c, es, i) {
      forall l | i < l < |p| ensures !Forgets(c, p[..l], p[l]) {
        assert !Forgets(c, es[..l], es[l]);
      }
      assert !Forgets(c, es[..|p|], es[|p|]);
    }
  }

  lemma KeptLast(c: nat, p: seq<Event>, e: Event)
    ensures Kept(c, p + [e], |p|)
  {
  }

  lemma WatchingMore(c: nat, k: Pair, p: seq<Event>, e: Event)
    ensures Watching(c, k, p + [e]) <==> k in Wanted(c, p, e) || (Watching(c, k, p) && !Forgets(c, p, e))
  {
    hide Wanted, Forgets, Kept;
    var es := p + [e];
    Latest(p, e);
    KeptLast(c, p, e);
    if Watching(c, k, es) && k !in Wanted(c, p, e) {
      var i :| 0 <= i < |es| && k in Wanted(c, es[..i], es[i]) && Kept(c, es, i);
      Earlier(p, e, i);
      KeptMore(c, p, e, i);
    }
    if Watching(c, k, p) && !Forgets(c, p, e) {
      var i :| 0 <= i < |p| && k in Wanted(c, p[..i], p[i]) && Kept(c, p, i);
      Earlier(p, e, i);
      KeptMore(c, p, e, i);
      assert k in Wanted(c, es[..i], es[i]);
    }
    if k in Wanted(c, p, e) { assert k in Wanted(c, es[..|p|], es[|p|]); }
  }

  /** A command among those that run changes a pair that `c` watches. */
  ghost predicate Strikes(c: nat, p: seq<Event>, xs: seq<Step>) {
    exists n, k :: 0 <= n < |xs| && Watching(c, k, p) && Alters(xs[n], k)
  }

  ghost predicate Spoilt(c: nat, es: seq<Event>, i: nat, j: nat) {
    i < j < |es| && Kept(c, es, i) && AnyAlters(Ran(es[..j], es[j]), Wanted(c, es[..i], es[i]))
  }

  lemma RefusedIs(c: nat, es: seq<Event>)
    ensures Refused(c, es) <==> exists i: nat, j: nat :: Spoilt(c, es, i, j)
  {
    hide Wanted, Ran, Kept, AnyAlters;
    if Refused(c, es) {
      var i, j :| 0 <= i < j < |es| && Kept(c, es, i) && AnyAlters(Ran(es[..j], es[j]), Wanted(c, es[..i], es[i]));
      assert Spoilt(c, es, i, j);
    }
    if i: nat, j: nat :| Spoilt(c, es, i, j) {
      assert AnyAlters(Ran(es[..j], es[j]), Wanted(c, es[..i], es[i]));
    }
  }

  lemma SpoiltMore(c: nat, p: seq<Event>, e: Event, i: nat, j: nat)
    requires j < |p|
    ensures Spoilt(c, p + [e], i, j) <==> Spoilt(c, p, i, j) && !Forgets(c, p, e)
  {
    hide Wanted, Forgets, Kept, Ran, AnyAlters;
    if i < j {
      Earlier(p, e, i);
      Earlier(p, e, j);
      KeptMore(c, p, e, i);
    }
  }

  lemma StrikesIs(c: nat, p: seq<Event>, e: Event)
    ensures !Forgets(c, p, e) && Strikes(c, p, Ran(p, e)) <==> exists i: nat :: Spoilt(c, p + [e], i, |p|)
  {
    hide Wanted, Forgets, Kept, Ran, Alters;
    var es, xs := p + [e], Ran(p, e);
    Latest(p, e);
    if i: nat :| Spoilt(c, es, i, |p|) {
      Earlier(p, e, i);
      KeptMore(c, p, e, i);
      var n, k :| 0 <= n < |xs| && k in Wanted(c, es[..i], es[i]) && Alters(xs[n], k);
      assert Watching(c, k, p);
    }
    if !Forgets(c, p, e) && Strikes(c, p, xs) {
      var n, k :| 0 <= n < |xs| && Watching(c, k, p) && Alters(xs[n], k);
      var i: nat :| i < |p| && k in Wanted(c, p[..i], p[i]) && Kept(c, p, i);
      Earlier(p, e, i);
      KeptMore(c, p, e, i);
      assert Spoilt(c, es, i, |p|);
    }
  }

  lemma RefusedMore(c: nat, p: seq<Event>, e: Event)
    ensures Refused(c, p + [e]) <==> !Forgets(c, p, e) && (Refused(c, p) || Strikes(c, p, Ran(p, e)))
  {
    hide Refused, Strikes, Forgets;
    var es := p + [e];
    RefusedIs(c, es);
    RefusedIs(c, p);
    StrikesIs(c, p, e);
    if Refused(c, es) {
      var i: nat, j: nat :| Spoilt(c, es, i, j);
      if j < |p| { SpoiltMore(c, p, e, i, j); }
    }
    if !Forgets(c, p, e) && Refused(c, p) {
      var i: nat, j: nat :| Spoilt(c, p, i, j);
      SpoiltMore(c, p, e, i, j);
    }
  }

  // ---- what one step of the model adds to the past ---------------------------

  /** A command among those that run changes a pair that `c` holds. */
  ghost predicate Meets(h: seq<Moment>, c: nat, xs: seq<Step>) {
    exists n, k :: 0 <= n < |xs| && Holds(h, c, k) && Alters(xs[n], k)
  }

  /** From `h` to `h'`, `c` has forgotten if `forgets`, and has asked for the keys of
      `db`, and the commands `xs` have run. */
  ghost predicate Grows(
    h: seq<Moment>, h': seq<Moment>, c: nat, forgets: bool, db: nat, keys: seq<bytes>, xs: seq<Step>)
  {
    && (forall d, k :: Holds(h', d, k) <==>
          (d == c && k.0 == db && k.1 in keys) || (Holds(h, d, k) && !(d == c && forgets)))
    && (forall d :: Dirtied(h', d) <==> !(d == c && forgets) && (Dirtied(h, d) || Meets(h, d, xs)))
  }

  lemma NothingGrows(h: seq<Moment>, c: nat)
    ensures Grows(h, h, c, false, 0, [], [])
  {
    hide Holds, Dirtied;
  }

  lemma ForgotGrows(h: seq<Moment>, c: nat, xs: seq<Step>)
    requires forall n, k :: 0 <= n < |xs| ==> !Alters(xs[n], k)
    ensures Grows(h, h + [Forgot(c)], c, true, 0, [], xs)
  {
    hide Holds, Dirtied, Alters;
    forall d, k ensures Holds(h + [Forgot(c)], d, k) <==> Holds(h, d, k) && d != c { HoldsMore(h, Forgot(c), d, k); }
    forall d ensures Dirtied(h + [Forgot(c)], d) <==> d != c && Dirtied(h, d) { DirtiedMore(h, Forgot(c), d); }
  }

  lemma {:induction false} WatchKeysGrows(w: World, c: nat, db: nat, keys: seq<bytes>)
    ensures Grows(w.history, WatchKeys(w, c, db, keys).history, c, false, db, keys, [])
    decreases |keys|
  {
    hide Holds, Dirtied, React, Touches;
    if keys == [] {
    } else {
      var h, m := w.history, Watched(c, (db, keys[0]));
      forall d, k ensures Holds(h + [m], d, k) <==> Holds(h, d, k) || m == Watched(d, k) { HoldsMore(h, m, d, k); }
      forall d ensures Dirtied(h + [m], d) <==> Dirtied(h, d) {
        DirtiedMore(h, m, d);
        WatchedTouchesNothing(m);
      }
      WatchKeysGrows(Happen(w, m), c, db, keys[1..]);
    }
  }

  lemma WatchedTouchesNothing(m: Moment)
    requires m.Watched?
    ensures forall k :: !Touches(m, k)
  {
  }

  /** Touching the pairs one by one. */
  lemma {:induction false} TouchAllGrows(w: World, ks: seq<Pair>)
    ensures var h, r := w.history, TouchAll(w, ks).history;
      && (forall d, k :: Holds(r, d, k) <==> Holds(h, d, k))
      && (forall d :: Dirtied(r, d) <==> Dirtied(h, d) || exists k :: k in ks && Holds(h, d, k))
    decreases |ks|
  {
    hide Holds, Dirtied, React;
    if ks == [] {
    } else {
      var h, m := w.history, Touched(ks[0]);
      forall d, k ensures Holds(h + [m], d, k) <==> Holds(h, d, k) { HoldsMore(h, m, d, k); }
      forall d ensures Dirtied(h + [m], d) <==> Dirtied(h, d) || Holds(h, d, ks[0]) {
        DirtiedMore(h, m, d);
        if Holds(h, d, ks[0]) { assert Touches(m, ks[0]); }
      }
      TouchAllGrows(Happen(w, m), ks[1..]);
      assert forall k :: k in ks <==> k == ks[0] || k in ks[1..];
    }
  }

  lemma FlushGrows(h: seq<Moment>, c: nat, db: nat, cmd: Cmd)
    requires cmd.Flush?
    ensures var m := FlushedDb(if cmd.all then None else Some(db), cmd.present);
      Grows(h, h + [m], c, false, 0, [], [Step(c, db, cmd)])
  {
    hide Holds, Dirtied;
    var m := FlushedDb(if cmd.all then None else Some(db), cmd.present);
    var x := Step(c, db, cmd);
    forall d, k ensures Holds(h + [m], d, k) <==> Holds(h, d, k) { HoldsMore(h, m, d, k); }
    forall k ensures Touches(m, k) <==> Alters(x, k) {}
    forall d ensures Dirtied(h + [m], d) <==> Dirtied(h, d) || Meets(h, d, [x]) {
      DirtiedMore(h, m, d);
      if k :| Touches(m, k) && Holds(h, d, k) { assert Alters([x][0], k); }
    }
  }

  /** A command outside a transaction, or of a queue. */
  lemma BasicGrows(w: World, c: nat, cmd: Cmd)
    requires c in w.conns && !Immediate(cmd)
    ensures Grows(w.history, Basic(w, c, cmd).history, c, cmd.Unwatch?, 0, [], [Step(c, w.conns[c].db, cmd)])
  {
    hide Holds, Dirtied, React, TouchAll, Counted;
    var h, x, w1 := w.history, Step(c, w.conns[c].db, cmd), w.(executed := w.executed + [(c, cmd)]);
    match cmd
    case Unwatch => ForgotGrows(h, c, [x]);
    case Select(_) =>
    case Flush(_, _, _, _, _) => FlushGrows(h, c, x.db, cmd);
    case Data(_, touched, _, _) =>
      TouchAllGrows(w1, touched);
      TouchMeets(h, x, touched);
    case Assign(_, touched, _) =>
      TouchAllGrows(w1, touched);
      TouchMeets(h, x, touched);
  }

  lemma TouchMeets(h: seq<Moment>, x: Step, ks: seq<Pair>)
    requires forall k :: Alters(x, k) <==> k in ks
    ensures forall d :: Meets(h, d, [x]) <==> exists k :: k in ks && Holds(h, d, k)
  {
    hide Holds, Alters;
    forall d ensures Meets(h, d, [x]) <==> exists k :: k in ks && Holds(h, d, k) {
      if k :| k in ks && Holds(h, d, k) { assert Alters([x][0], k); }
    }
  }

  lemma GrowsBoth(h: seq<Moment>, h1: seq<Moment>, h2: seq<Moment>, c: nat, forgets: bool, xs: seq<Step>, ys: seq<Step>)
    requires Grows(h, h1, c, forgets, 0, [], xs) && Grows(h1, h2, c, false, 0, [], ys)
    ensures Grows(h, h2, c, forgets, 0, [], xs + ys)
  {
    hide Holds, Dirtied, Alters;
    forall d ensures Dirtied(h2, d) <==> !(d == c && forgets) && (Dirtied(h, d) || Meets(h, d, xs + ys)) {
      MeetsBoth(h, d, xs, ys);
      if d == c && forgets {
        assert !Meets(h1, d, ys);
      } else {
        assert Meets(h1, d, ys) <==> Meets(h, d, ys);
      }
    }
  }

  lemma MeetsBoth(h: seq<Moment>, d: nat, xs: seq<Step>, ys: seq<Step>)
    ensures Meets(h, d, xs + ys) <==> Meets(h, d, xs) || Meets(h, d, ys)
  {
    hide Holds, Alters;
    if n, k :| 0 <= n < |xs| && Holds(h, d, k) && Alters(xs[n], k) {
      assert Alters((xs + ys)[n], k);
    }
    if n, k :| 0 <= n < |ys| && Holds(h, d, k) && Alters(ys[n], k) {
      assert Alters((xs + ys)[|xs| + n], k);
    }
  }

  lemma {:induction false} ChosenFirst(db: nat, q: seq<Cmd>)
    requires q != []
    ensures Chosen(db, q) == Chosen(DbAfter(q[0], db), q[1..])
  {
    var n := |q|;
    if n == 1 {
      assert q[..0] == [] && q[1..] == [];
    } else {
      ChosenFirst(db, q[..n - 1]);
      assert q[..n - 1][1..] == q[1..][..n - 2] && q[..n - 1][0] == q[0];
      assert q[1..][n - 2] == q[n - 1];
    }
  }

  lemma StepsFirst(c: nat, db: nat, q: seq<Cmd>)
    requires q != []
    ensures Steps(c, db, q) == [Step(c, db, q[0])] + Steps(c, DbAfter(q[0], db), q[1..])
  {
    hide DbAfter;
    assert q[..0] == [];
    forall i | 0 < i < |q| ensures Chosen(db, q[..i]) == Chosen(DbAfter(q[0], db), q[1..][..i - 1]) {
      assert q[..i][1..] == q[1..][..i - 1] && q[..i][0] == q[0];
      ChosenFirst(db, q[..i]);
    }
  }

  lemma {:induction false} ChosenIs(db: nat, q: seq<Cmd>)
    ensures Chosen(db, q) == DbAfterAll(q, db)
    decreases |q|
  {
    hide DbAfter;
    if q != [] {
      ChosenFirst(db, q);
      ChosenIs(DbAfter(q[0], db), q[1..]);
    }
  }

  lemma {:induction false} RunQueueGrows(w: World, c: nat, q: seq<Cmd>)
    requires c in w.conns && Queueable(q) && Tells(w.ix, w.history) && Free(w.history, c)
    ensures Grows(w.history, RunQueue(w, c, q).history, c, false, 0, [], Steps(c, w.conns[c].db, q))
    decreases |q|, 0
  {
    hide Basic, Tells, Immediate, Holds, Dirtied, Alters, Chosen, DbAfter;
    if q == [] {
      NothingGrows(w.history, c);
    } else {
      var w1, x := Basic(w, c, q[0]), Step(c, w.conns[c].db, q[0]);
      assert !Immediate(q[0]);
      BasicGrows(w, c, q[0]);
      assert !Meets(w.history, c, [x]);
      assert Grows(w.history, w1.history, c, false, 0, [], [x]);
      BasicConns(w, c, q[0]);
      BasicQuiet(w, c, q[0]);
      QueueFrom(w1, c, q[1..], w, x);
      StepsFirst(c, w.conns[c].db, q);
    }
  }

  lemma QueueFrom(w1: World, c: nat, q: seq<Cmd>, w: World, x: Step)
    requires c in w1.conns && Queueable(q) && Tells(w1.ix, w1.history) && Free(w1.history, c)
    requires Grows(w.history, w1.history, c, false, 0, [], [x])
    ensures var xs := Steps(c, w1.conns[c].db, q);
      Grows(w.history, RunQueue(w1, c, q).history, c, false, 0, [], [x] + xs)
    decreases |q|, 1
  {
    hide Tells, Queueable, Free, Grows, RunQueue;
    RunQueueGrows(w1, c, q);
    GrowsBoth(w.history, w1.history, RunQueue(w1, c, q).history, c, false, [x], Steps(c, w1.conns[c].db, q));
  }

  /** EXEC of a transaction that is not dirty. */
  lemma ExecGrows(w: World, c: nat)
    requires Inv(w) && c in w.conns && w.conns[c].multi && c !in w.ix.dirty
    ensures var q := w.conns[c].queue;
      Grows(w.history, ExecStep(w, c).history, c, true, 0, [], Steps(c, w.conns[c].db, q))
  {
    hide Tells, React, Free, RunQueue, Queueable, Tagged, Grows;
    var q, xs := w.conns[c].queue, Steps(c, w.conns[c].db, w.conns[c].queue);
    var w0 := w.(log := w.log + [Opening(c, w.conns[c].db)]);
    var w1 := Happen(w0, Forgot(c));
    HappenQuiet(w0, Forgot(c));
    FreeMore(w.history, Forgot(c), c);
    ForgotGrows(w.history, c, []);
    RunQueueConns(w1, c, q);
    RunQueueGrows(w1, c, q);
    GrowsBoth(w.history, w1.history, RunQueue(w1, c, q).history, c, true, [], xs);
    assert [] + xs == xs;
  }

  // ---- every run agrees -------------------------------------------------------

  /** The state is what the events say. */
  ghost predicate Told(w: World, es: seq<Event>) {
    && (forall c :: c in w.conns <==> View(c, es).Some?)
    && (forall c :: c in w.conns ==> w.conns[c] == View(c, es).value)
    && (forall c, k :: Holds(w.history, c, k) <==> Watching(c, k, es))
    && (forall c :: Dirtied(w.history, c) <==> Refused(c, es))
    && w.executed == Commands(AllRan(es))
  }

  lemma DirtyIsRefused(w: World, p: seq<Event>, c: nat)
    requires Inv(w) && Told(w, p)
    ensures c in w.ix.dirty <==> Refused(c, p)
  {
    hide IndexOk, Watches, Holds, Dirtied, View, Watching, Refused, AllRan;
  }

  /** The keys a request asks to watch. */
  function KeysOf(v: Conn, cmd: Cmd): seq<bytes> {
    if cmd.Watch? && !v.multi then cmd.keys else []
  }

  lemma RequestGrows(w: World, p: seq<Event>, c: nat, cmd: Cmd)
    requires Inv(w) && Told(w, p) && c in w.conns
    ensures var e, v := Asked(c, cmd), w.conns[c];
      Grows(w.history, Request(w, c, cmd).history, c, Forgets(c, p, e), v.db, KeysOf(v, cmd), Ran(p, e))
  {
    hide Tells, Basic, ExecStep, WatchKeys, View, Refused, Holds, Dirtied, Watching, AllRan, Alters, Steps, React;
    hide Queueable;
    var v := w.conns[c];
    assert View(c, p).Some? && View(c, p).value == v;
    DirtyIsRefused(w, p, c);
    if v.multi && !Immediate(cmd) {
      NothingGrows(w.history, c);
    } else {
      match cmd
      case Watch(keys) =>
        if v.multi { NothingGrows(w.history, c); } else { WatchKeysGrows(w, c, v.db, keys); }
      case Multi => NothingGrows(w.history, c);
      case Discard =>
        if v.multi { ForgotGrows(w.history, c, []); } else { NothingGrows(w.history, c); }
      case Exec =>
        if !v.multi { ExecNotOpen(w, c); NothingGrows(w.history, c); }
        else if c in w.ix.dirty { RefusedGrows(w, c); }
        else { ExecGrows(w, c); }
      case _ => BasicGrows(w, c, cmd);
    }
  }

  lemma RefusedGrows(w: World, c: nat)
    requires c in w.conns && w.conns[c].multi && c in w.ix.dirty
    ensures Grows(w.history, ExecStep(w, c).history, c, true, 0, [], [])
  {
    hide React, Grows;
    ForgotGrows(w.history, c, []);
  }

  lemma RequestConns(w: World, p: seq<Event>, c: nat, cmd: Cmd)
    requires Inv(w) && Told(w, p) && c in w.conns
    ensures var r := Request(w, c, cmd);
      && r.conns.Keys == w.conns.Keys
      && (forall d :: d in w.conns && d != c ==> r.conns[d] == w.conns[d])
      && r.conns[c] == Answered(w.conns[c], cmd, Refused(c, p))
      && r.executed == w.executed + Commands(Ran(p, Asked(c, cmd)))
  {
    hide Tells, Basic, ExecStep, WatchKeys, View, Refused, Holds, Dirtied, Watching, AllRan, Chosen, Queueable, React;
    var v := w.conns[c];
    assert View(c, p).Some? && View(c, p).value == v;
    DirtyIsRefused(w, p, c);
    NoCommands(w.executed);
    if v.multi && !Immediate(cmd) {
    } else {
      match cmd
      case Watch(keys) => WatchKeysTells(w, c, v.db, keys);
      case Multi =>
      case Discard =>
      case Exec =>
        if !v.multi { ExecNotOpen(w, c); }
        else if c in w.ix.dirty { ExecAborts(w, c); AbortConn(w, c); }
        else { ExecRuns(w, c); RunConn(w, c); }
      case _ => BasicConns(w, c, cmd); OneCommand(c, v.db, cmd);
    }
  }

  lemma NoCommands(x: seq<(nat, Cmd)>)
    ensures x + Commands([]) == x
  {
  }

  lemma OneCommand(c: nat, db: nat, cmd: Cmd)
    ensures Commands([Step(c, db, cmd)]) == [(c, cmd)]
  {
  }

  lemma AbortConn(w: World, c: nat)
    requires c in w.conns && w.conns[c].multi && c in w.ix.dirty
    ensures c in ExecStep(w, c).conns && ExecStep(w, c).conns[c] == Conn(w.conns[c].db, false, [])
  {
    hide React;
  }

  lemma RunConn(w: World, c: nat)
    requires c in w.conns && w.conns[c].multi && c !in w.ix.dirty
    ensures var v := w.conns[c];
      && c in ExecStep(w, c).conns
      && ExecStep(w, c).conns[c] == Conn(Chosen(v.db, v.queue), false, [])
      && Commands(Steps(c, v.db, v.queue)) == Tagged(c, v.queue)
  {
    hide React, RunQueue, Chosen;
    var q := w.conns[c].queue;
    var w1 := Happen(w.(log := w.log + [Opening(c, w.conns[c].db)]), Forgot(c));
    RunQueueConns(w1, c, q);
    ChosenIs(w.conns[c].db, q);
  }

  lemma NextConns(w: World, p: seq<Event>, e: Event)
    requires Inv(w) && Told(w, p) && Possible(w, e)
    ensures var r := Next(w, e);
      && (forall d :: d in r.conns <==> View(d, p + [e]).Some?)
      && (forall d :: d in r.conns ==> r.conns[d] == View(d, p + [e]).value)
      && r.executed == w.executed + Commands(Ran(p, e))
  {
    hide Inv, Request, Watching, Refused, Holds, Dirtied, AllRan, React, Answered;
    Latest(p, e);
    NoCommands(w.executed);
    if e.Asked? { RequestConns(w, p, e.client, e.cmd); }
  }

  lemma NextGrows(w: World, p: seq<Event>, e: Event)
    requires Inv(w) && Told(w, p) && Possible(w, e)
    ensures var r := Next(w, e);
      && (forall d, k :: Holds(r.history, d, k) <==>
           k in Wanted(d, p, e) || (Holds(w.history, d, k) && !Forgets(d, p, e)))
      && (forall d :: Dirtied(r.history, d) <==>
           !Forgets(d, p, e) && (Dirtied(w.history, d) || Meets(w.history, d, Ran(p, e))))
  {
    hide Inv, Request, Watching, Refused, Holds, Dirtied, AllRan, React, View, Alters;
    match e
    case Asked(c, cmd) =>
      RequestGrows(w, p, c, cmd);
      assert View(c, p).Some? && View(c, p).value == w.conns[c];
    case Connected(c) => NothingGrows(w.history, c);
    case Gone(c) => ForgotGrows(w.history, c, []);
    case Saved(_) => NothingGrows(w.history, 0);
    case Cycle(_) => NothingGrows(w.history, 0);
  }

  lemma NextTold(w: World, p: seq<Event>, e: Event)
    requires Inv(w) && Told(w, p) && Possible(w, e)
    ensures Told(Next(w, e), p + [e])
  {
    var r, es, h := Next(w, e), p + [e], w.history;
    NextConns(w, p, e);
    NextGrows(w, p, e);
    hide Inv, Next, Possible, Watching, Refused, Holds, Dirtied, View, Alters, Wanted, Forgets, Ran;
    forall c, k ensures Holds(r.history, c, k) <==> Watching(c, k, es) { WatchingMore(c, k, p, e); }
    forall c ensures Dirtied(r.history, c) <==> Refused(c, es) {
      RefusedMore(c, p, e);
      assert Strikes(c, p, Ran(p, e)) <==> Meets(h, c, Ran(p, e));
    }
    Latest(p, e);
    CommandsBoth(AllRan(p), Ran(p, e));
  }

  lemma CommandsBoth(xs: seq<Step>, ys: seq<Step>)
    ensures Commands(xs + ys) == Commands(xs) + Commands(ys)
  {
  }

  lemma {:induction false} RunTold(w: World, p: seq<Event>, es: seq<Event>)
    requires Inv(w) && Told(w, p) && PossibleRun(w, es)
    ensures Inv(Run(w, es)) && Told(Run(w, es), p + es)
    decreases |es|
  {
    hide Inv, Told, Next, Possible;
    if es == [] {
      assert p + es == p;
    } else {
      NextKeeps(w, es[0]);
      NextTold(w, p, es[0]);
      RunTold(Next(w, es[0]), p + [es[0]], es[1..]);
      assert p + [es[0]] + es[1..] == p + es;
    }
  }

  lemma ToldFirst()
    ensures Told(IDLE, []) && Inv(IDLE)
  {
    TellsFirst();
    assert Commands([]) == [];
  }

  /** Every run from the start does what its events say: its connections are as
      `View` has them, it has run the commands of `AllRan` and no others, and a
      client's flag is set exactly when its EXEC is refused. */
  lemma RunsAgree(es: seq<Event>)
    requires PossibleRun(IDLE, es)
    ensures var w := Run(IDLE, es);
      && (forall c :: c in w.conns <==> View(c, es).Some?)
      && (forall c :: c in w.conns ==> w.conns[c] == View(c, es).value)
      && (forall c, k :: Watches(w.ix, c, k) <==> Watching(c, k, es))
      && (forall c :: c in w.ix.dirty <==> Refused(c, es))
      && w.executed == Commands(AllRan(es))
  {
    hide Next, Possible, View, Watching, Refused, AllRan, Holds, Dirtied, IndexOk, Watches;
    ToldFirst();
    RunTold(IDLE, [], es);
    assert [] + es == es;
  }

  /** An EXEC runs nothing if and only if the client asked to watch a pair and has not
      forgotten since, and a command that ran afterwards has changed the pair; else
      it runs the whole queue, in order. */
  lemma ExecDecided(es: seq<Event>, c: nat)
    requires PossibleRun(IDLE, es) && View(c, es).Some? && View(c, es).value.multi
    ensures var w, v := Run(IDLE, es), View(c, es).value;
      && Possible(w, Asked(c, Exec))
      && var r := Next(w, Asked(c, Exec));
      && r.executed == (if Refused(c, es) then w.executed else w.executed + Tagged(c, v.queue))
      && c in r.conns && !r.conns[c].multi && r.conns[c].queue == []
      && c !in r.ix.dirty && forall k :: !Watches(r.ix, c, k)
  {
    hide Tells, Watching, Refused, AllRan, Watches, IndexOk, ExecStep, Holds, Dirtied, Queueable, View;
    ToldFirst();
    RunTold(IDLE, [], es);
    assert [] + es == es;
    RunsAgree(es);
    var w := Run(IDLE, es);
    if c in w.ix.dirty { ExecAborts(w, c); } else { ExecRuns(w, c); }
    FreeTells(Next(w, Asked(c, Exec)), c);
  }

  lemma FreeTells(w: World, c: nat)
    requires Tells(w.ix, w.history) && Free(w.history, c)
    ensures c !in w.ix.dirty && forall k :: !Watches(w.ix, c, k)
  {
    hide Holds, Dirtied, Watches, IndexOk;
  }

  /** DISCARD drops the queue and what the client watches, runs nothing and feeds
      nothing. */
  lemma DiscardDrops(es: seq<Event>, c: nat)
    requires PossibleRun(IDLE, es) && View(c, es).Some? && View(c, es).value.multi
    ensures var w := Run(IDLE, es);
      && Possible(w, Asked(c, Discard))
      && var r := Next(w, Asked(c, Discard));
      && r.conns == w.conns[c := Conn(View(c, es).value.db, false, [])]
      && r.executed == w.executed && r.log == w.log && r.dirty == w.dirty
      && c !in r.ix.dirty && forall k :: !Watches(r.ix, c, k)
  {
    hide Tells, Watching, Refused, AllRan, Watches, IndexOk, Holds, Dirtied, Queueable, View, React, Free;
    ToldFirst();
    RunTold(IDLE, [], es);
    assert [] + es == es;
    RunsAgree(es);
    var w := Run(IDLE, es);
    CloseForget(w, c);
    FreeTells(Next(w, Asked(c, Discard)), c);
  }

  // ---- the counter of changes -----------------------------------------------------

  /** The command adds to server.dirty and does nothing else to it. */
  predicate Adds(cmd: Cmd) {
    !cmd.Assign? && !(cmd.Flush? && cmd.all && cmd.saves)
  }

  function Sum(xs: seq<Step>): nat {
    if xs == [] then 0 else Added(xs[0].cmd) + Sum(xs[1..])
  }

  /** The EXEC of this event runs its queue. */
  ghost predicate Executes(p: seq<Event>, e: Event) {
    && e.Asked? && e.cmd.Exec? && View(e.client, p).Some? && View(e.client, p).value.multi
    && !Refused(e.client, p)
  }

  /** What the commands that ran have added and each EXEC by itself, less what background
      saves have written. */
  ghost function Balance(es: seq<Event>): int {
    if es == [] then 0
    else
      var p, e := es[..|es| - 1], es[|es| - 1];
      Balance(p) + Sum(Ran(p, e)) + (if Executes(p, e) then 1 else 0) - (if e.Saved? then e.changes else 0)
  }

  ghost predicate AllAdd(xs: seq<Step>) {
    forall i :: 0 <= i < |xs| ==> Adds(xs[i].cmd)
  }

  lemma {:induction false} QueueAdds(c: nat, db: nat, q: seq<Cmd>, dirty: int)
    requires AllAdd(Steps(c, db, q))
    ensures DirtyAfter(q, dirty) == dirty + Sum(Steps(c, db, q))
    decreases |q|
  {
    hide DbAfter, Chosen, CInt;
    if q != [] {
      StepsFirst(c, db, q);
      var rest := Steps(c, DbAfter(q[0], db), q[1..]);
      var all := Steps(c, db, q);
      assert all[1..] == rest && all[0].cmd == q[0] && Adds(all[0].cmd);
      forall i | 0 <= i < |rest| ensures Adds(rest[i].cmd) { assert rest[i] == all[i + 1]; }
      QueueAdds(c, DbAfter(q[0], db), q[1..], Counted(q[0], dirty));
    }
  }

  lemma NextAdds(w: World, p: seq<Event>, e: Event)
    requires Inv(w) && Told(w, p) && Possible(w, e) && AllAdd(Ran(p, e))
    ensures Next(w, e).dirty == w.dirty + Sum(Ran(p, e)) + (if Executes(p, e) then 1 else 0)
                                - (if e.Saved? then e.changes else 0)
  {
    hide Inv, ExecStep, Basic, WatchKeys, View, Refused, AllRan, Holds, Dirtied, Watching, React, Steps, AllAdd, Added;
    if e.Asked? {
      var c, v := e.client, w.conns[e.client];
      assert View(c, p).Some? && View(c, p).value == v;
      if v.multi && !Immediate(e.cmd) {
      } else {
        match e.cmd
        case Watch(keys) => if !v.multi { WatchedDirty(w, c, v.db, keys); }
        case Multi =>
        case Discard =>
        case Exec => ExecAdds(w, p, c);
        case _ =>
          BasicDirty(w, c, e.cmd);
          OneAdds(c, v.db, e.cmd, w.dirty);
      }
    }
  }

  lemma WatchedDirty(w: World, c: nat, db: nat, keys: seq<bytes>)
    ensures WatchKeys(w, c, db, keys).dirty == w.dirty
    decreases |keys|
  {
    hide React;
    if keys != [] { WatchedDirty(Happen(w, Watched(c, (db, keys[0]))), c, db, keys[1..]); }
  }

  lemma OneAdds(c: nat, db: nat, cmd: Cmd, dirty: int)
    requires AllAdd([Step(c, db, cmd)])
    ensures Counted(cmd, dirty) == dirty + Sum([Step(c, db, cmd)])
  {
    hide CInt;
    var xs := [Step(c, db, cmd)];
    assert Adds(xs[0].cmd) && xs[1..] == [];
  }

  lemma ExecAdds(w: World, p: seq<Event>, c: nat)
    requires Inv(w) && Told(w, p) && c in w.conns && AllAdd(Ran(p, Asked(c, Exec)))
    ensures ExecStep(w, c).dirty ==
      w.dirty + Sum(Ran(p, Asked(c, Exec))) + if Executes(p, Asked(c, Exec)) then 1 else 0
  {
    hide Tells, View, Refused, AllRan, Holds, Dirtied, Watching, React, Steps, AllAdd, Added, Queueable;
    hide RunQueue, DirtyAfter;
    var v := w.conns[c];
    assert View(c, p).Some? && View(c, p).value == v;
    DirtyIsRefused(w, p, c);
    if v.multi && c !in w.ix.dirty {
      var w1 := Happen(w.(log := w.log + [Opening(c, v.db)]), Forgot(c));
      RunQueueConns(w1, c, v.queue);
      RunQueueDirty(w1, c, v.queue);
      QueueAdds(c, v.db, v.queue, w.dirty);
    }
  }

  lemma {:induction false} RunAdds(w: World, p: seq<Event>, es: seq<Event>)
    requires Inv(w) && Told(w, p) && PossibleRun(w, es) && w.dirty == Balance(p) && AllAdd(AllRan(p + es))
    ensures Run(w, es).dirty == Balance(p + es)
    decreases |es|
  {
    hide Inv, Told, Next, Possible, Ran, Executes, AllAdd;
    if es == [] {
      assert p + es == p;
    } else {
      var q := p + [es[0]];
      assert q + es[1..] == p + es;
      Latest(p, es[0]);
      RanEarlier(q, es[1..]);
      NextKeeps(w, es[0]);
      NextTold(w, p, es[0]);
      LastAdds(AllRan(p), Ran(p, es[0]), AllRan(p + es));
      NextAdds(w, p, es[0]);
      RunAdds(Next(w, es[0]), q, es[1..]);
    }
  }

  lemma {:induction false} RanEarlier(p: seq<Event>, es: seq<Event>)
    ensures AllRan(p) <= AllRan(p + es)
    decreases |es|
  {
    hide Ran;
    if es == [] {
      assert p + es == p;
    } else {
      var n := |es| - 1;
      RanEarlier(p, es[..n]);
      assert (p + es)[..|p + es| - 1] == p + es[..n];
    }
  }

  lemma LastAdds(xs: seq<Step>, ys: seq<Step>, all: seq<Step>)
    requires xs + ys <= all && AllAdd(all)
    ensures AllAdd(ys)
  {
    hide Adds;
    forall i | 0 <= i < |ys| ensures Adds(ys[i].cmd) {
      assert all[|xs| + i] == (xs + ys)[|xs| + i] == ys[i];
    }
  }

  /** server.dirty is the balance of the run, unless SAVE or something like it has set it:
      a background save takes away what it was when it began, and what has been
      changed since is still counted. */
  lemma DirtyBalanced(es: seq<Event>)
    requires PossibleRun(IDLE, es) && AllAdd(AllRan(es))
    ensures Run(IDLE, es).dirty == Balance(es)
  {
    hide Next, Possible, AllAdd, AllRan, Told, Inv;
    ToldFirst();
    assert [] + es == es;
    RunAdds(IDLE, [], es);
  }
}
