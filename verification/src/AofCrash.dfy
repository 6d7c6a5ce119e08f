/**
A process that dies in the middle of a write to the append only file (aof.c:108-123),
and redis-check-aof afterwards: what the file, cut off where the tool says, loads to.
*/
module AofCrash {
  import opened Common
  import opened Decimal
  import opened Resp
  import opened AofCodec
  import opened AofReplay
  import opened AofRewrite
  import opened AofLog
  import CheckAof
  import ClientLog

  // ---- what the events feed -----------------------------------------------------

  /** The commands an event appends to the log. */
  function FedBy(w: World, e: AofLog.Event): seq<Command> {
    if !w.core.on then []
    else match e
      case Execute(db, c, now, fedAt) => FeedCommands(w.core.seldb, db, AsRun(c, now), fedAt)
      case Begin(db) => FeedCommands(w.core.seldb, db, [MULTI], 0)
      case End(db, fed) => if fed then FeedCommands(w.core.seldb, db, [EXEC], 0) else []
      case _ => []
  }

  predicate AllWritable(cs: seq<Command>) {
    forall i :: 0 <= i < |cs| ==> CheckAof.Plain(cs[i])
  }

  /** What an event writes has sizes that fit a long and names without NULs; and a
      rewrite does not start while an EXEC runs its queue. */
  ghost predicate Sober(w: World, e: AofLog.Event) {
    && AllWritable(FedBy(w, e))
    && (e.Execute? ==> e.cmd != [] && 0 !in e.cmd[0])
    && (e.Fork? ==> !w.txn && AllWritable(RewriteCommands(e.dump, e.at)))
  }

  /** The file is written anew, or up to date, after it. */
  predicate Settles(e: AofLog.Event) {
    e.Flush? || e == ChildExit(AofLog.Swapped)
  }

  ghost predicate SoberRun(apply: Effect, dbnum: nat, w: World, es: seq<AofLog.Event>)
    requires PossibleRun(apply, dbnum, w, es)
    decreases |es|
  {
    es != [] ==>
      && Steady(es[0]) && Sober(w, es[0])
      && SoberRun(apply, dbnum, AofLog.Next(apply, w, es[0]), es[1..])
  }

  ghost function FedAll(apply: Effect, dbnum: nat, w: World, es: seq<AofLog.Event>): seq<Command>
    requires PossibleRun(apply, dbnum, w, es)
    decreases |es|
  {
    if es == [] then [] else FedBy(w, es[0]) + FedAll(apply, dbnum, AofLog.Next(apply, w, es[0]), es[1..])
  }

  lemma NextBuffer(apply: Effect, dbnum: nat, w: World, e: AofLog.Event)
    requires Possible(dbnum, w, e) && InStep(w) && Steady(e) && !Settles(e)
    ensures var w' := AofLog.Next(apply, w, e);
      && w'.core.aofbuf == w.core.aofbuf + EncodeAll(FedBy(w, e)) && w'.core.file == w.core.file
      && w'.core.diff == (if e.Fork? || e.ChildExit? then w'.core.diff
                          else if w.core.child.Some? then w.core.diff + EncodeAll(FedBy(w, e)) else w.core.diff)
  {
    hide Live, AsRun, Control, FeedCommands, Temp, Fits, Unexpired;
    assert w.core.aofbuf + EncodeAll([]) == w.core.aofbuf && w.core.diff + EncodeAll([]) == w.core.diff;
  }

  lemma EncodeNothing()
    ensures EncodeAll([]) == []
  {
  }

  /** Without a flush the buffer collects what the events feed. */
  lemma {:induction false} BufferIs(apply: Effect, dbnum: nat, w: World, es: seq<AofLog.Event>)
    requires PossibleRun(apply, dbnum, w, es) && SoberRun(apply, dbnum, w, es) && InStep(w)
    requires forall i :: 0 <= i < |es| ==> !Settles(es[i])
    ensures var w' := AofLog.Run(apply, dbnum, w, es);
      && w'.core.file == w.core.file
      && w'.core.aofbuf == w.core.aofbuf + EncodeAll(FedAll(apply, dbnum, w, es))
    decreases |es|
  {
    hide AofLog.Next, InStep, Steady, FedBy, Sober, Snapshot, Fits, Control, AsRun, EncodeAll;
    if es == [] {
      EncodeNothing();
      assert w.core.aofbuf + [] == w.core.aofbuf;
    } else {
      var w1 := AofLog.Next(apply, w, es[0]);
      assert PossibleRun(apply, dbnum, w1, es[1..]);
      NextBuffer(apply, dbnum, w, es[0]);
      SteadyStep(apply, dbnum, w, es[0]);
      var f, rest := FedBy(w, es[0]), FedAll(apply, dbnum, w1, es[1..]);
      BufferIs(apply, dbnum, w1, es[1..]);
      EncodeAllConcat(f, rest);
      assert w.core.aofbuf + EncodeAll(f) + EncodeAll(rest) == w.core.aofbuf + (EncodeAll(f) + EncodeAll(rest));
    }
  }

  // ---- brackets -------------------------------------------------------------------

  lemma {:induction false} FollowConcat(open: bool, a: seq<Command>, b: seq<Command>)
    ensures ClientLog.Follow(open, a + b) ==
      match ClientLog.Follow(open, a)
      case None => None
      case Some(o) => ClientLog.Follow(o, b)
    decreases |b|
  {
    hide CheckAof.Says;
    if b == [] {
      assert a + b == a;
    } else {
      var init, c := b[..|b| - 1], b[|b| - 1];
      assert a + b == a + init + [c] && b == init + [c];
      FollowConcat(open, a, init);
      ClientLog.FollowMore(open, a + init, c);
      ClientLog.FollowMore(true, init, c);
      ClientLog.FollowMore(false, init, c);
    }
  }

  /** A part of what one event feeds leaves the bracket as it was; all of it leaves
      what the event leaves. */
  lemma {:induction false} EventFollow(apply: Effect, dbnum: nat, w: World, e: AofLog.Event, t: nat)
    requires Possible(dbnum, w, e) && Steady(e) && Sober(w, e) && w.core.on && t <= |FedBy(w, e)|
    ensures ClientLog.Follow(w.txn, FedBy(w, e)[..t]) ==
      Some(if t == |FedBy(w, e)| then AofLog.Next(apply, w, e).txn else w.txn)
  {
    hide Live, AsRun, Translate, CheckAof.Says, Print, Temp, Fits, CheckAof.Plain, Control;
    var f := FedBy(w, e);
    match e
    case Execute(db, c, now, fedAt) =>
      AsRunNamed(c, now);
      ClientLog.TranslatedNeutral(AsRun(c, now), fedAt);
      ClientLog.SelectNeutral(db);
      AllNeutral(f, w.txn, t);
    case Begin(db) =>
      ClientLog.TranslatedBracket(0);
      BracketFed(w.core.seldb, db, MULTI, w.txn, t);
    case End(db, _) =>
      ClientLog.TranslatedBracket(0);
      BracketFed(w.core.seldb, db, EXEC, w.txn, t);
    case _ =>
  }

  lemma AllNeutral(f: seq<Command>, open: bool, t: nat)
    requires t <= |f| && forall i :: 0 <= i < |f| ==> !CheckAof.Says(f[i], MULTI) && !CheckAof.Says(f[i], EXEC)
    ensures ClientLog.Follow(open, f[..t]) == Some(open)
  {
    hide CheckAof.Says;
    ClientLog.FollowNeutral(open, f[..t], []);
    assert f[..t] + [] == f[..t];
  }

  lemma BracketFed(seldb: Option<nat>, db: nat, name: bytes, open: bool, t: nat)
    requires (name == MULTI && !open) || (name == EXEC && open)
    requires Translate([name], 0) == [[name]] && t <= |FeedCommands(seldb, db, [name], 0)|
    ensures var f := FeedCommands(seldb, db, [name], 0);
      ClientLog.Follow(open, f[..t]) == Some(if t == |f| then !open else open)
  {
    hide CheckAof.Says, Print, Translate;
    var f := FeedCommands(seldb, db, [name], 0);
    var sel := f[..|f| - 1];
    assert f == sel + [[name]];
    ClientLog.SelectNeutral(db);
    ClientLog.TranslatedBracket(0);
    if t < |f| {
      assert f[..t] == sel[..t];
      AllNeutral(sel, open, t);
    } else {
      assert f[..t] == sel + [[name]] && [[name]][1..] == [];
      ClientLog.FollowNeutral(open, sel, [[name]]);
    }
  }

  lemma AsRunNamed(c: Command, now: int)
    requires c != [] && 0 !in c[0] && !Control(c)
    ensures var r := AsRun(c, now); r != [] && 0 !in r[0] && !Control(r)
  {
    hide Upper, Atol;
    ClientLog.NamesCapital();
    CapitalNames();
  }

  // ---- the tool on a log that has grown --------------------------------------------

  /** `log` reads to its end, with a MULTI open or not. */
  ghost predicate Reads(log: bytes, open: bool) {
    exists k: nat :: CheckAof.After(log, k) == Some((|log|, open))
  }

  lemma {:induction false} AfterMore(log: bytes, k: nat, open: bool, cs: seq<Command>, rest: bytes)
    requires CheckAof.After(log, k) == Some((|log|, open)) && AllWritable(cs)
    ensures CheckAof.After(log + EncodeAll(cs) + rest, k + |cs|) ==
      match ClientLog.Follow(open, cs)
      case None => None
      case Some(o) => Some((|log| + |EncodeAll(cs)|, o))
    decreases |cs|
  {
    hide CheckAof.ReadCommand, EncodeCommand, CheckAof.Says, CheckAof.Plain, CheckAof.After;
    if cs == [] {
      assert log + EncodeAll(cs) + rest == log + rest;
      CheckAof.AfterCut(log, rest, k);
    } else {
      var init, c := cs[..|cs| - 1], cs[|cs| - 1];
      assert cs == init + [c];
      EncodeAllConcat(init, [c]);
      EncodeOne(c);
      var more := EncodeCommand(c) + rest;
      assert log + EncodeAll(cs) + rest == log + EncodeAll(init) + more;
      AfterMore(log, k, open, init, more);
      CheckAof.CommandRead(c, rest);
      ClientLog.FollowMore(open, init, c);
      assert (log + EncodeAll(init) + more)[|log| + |EncodeAll(init)|..] == more;
      OneMore(log + EncodeAll(init) + more, k + |init|, |log| + |EncodeAll(init)|, c, rest);
    }
  }

  lemma OneMore(s: bytes, k: nat, p: nat, c: Command, rest: bytes)
    requires CheckAof.After(s, k).Some? ==> CheckAof.After(s, k).value.0 == p
    requires p <= |s| && CheckAof.ReadCommand(s[p..]) == Ok((c, rest)) && |rest| <= |s|
    ensures CheckAof.After(s, k + 1) ==
      match CheckAof.After(s, k)
      case None => None
      case Some((_, o)) =>
        if CheckAof.Says(c, MULTI) then if o then None else Some((|s| - |rest|, true))
        else if CheckAof.Says(c, EXEC) then if o then Some((|s| - |rest|, false)) else None
        else Some((|s| - |rest|, o))
  {
    hide CheckAof.ReadCommand, CheckAof.Says;
  }

  lemma ReadsMore(log: bytes, open: bool, cs: seq<Command>)
    requires Reads(log, open) && AllWritable(cs) && ClientLog.Follow(open, cs).Some?
    ensures Reads(log + EncodeAll(cs), ClientLog.Follow(open, cs).value)
  {
    hide CheckAof.After;
    var k: nat :| CheckAof.After(log, k) == Some((|log|, open));
    AfterMore(log, k, open, cs, []);
    assert log + EncodeAll(cs) + [] == log + EncodeAll(cs);
  }

  /** The whole commands in the first `cut` bytes, and what is left of the next. */
  lemma {:induction false} CutAt(cs: seq<Command>, cut: nat) returns (j: nat, torn: bytes)
    requires cut <= |EncodeAll(cs)|
    ensures j <= |cs| && EncodeAll(cs)[..cut] == EncodeAll(cs[..j]) + torn
    ensures if j == |cs| then torn == []
            else |torn| < |EncodeCommand(cs[j])| && torn == EncodeCommand(cs[j])[..|torn|]
    decreases |cs|
  {
    hide EncodeCommand;
    if cs == [] {
      j, torn := 0, [];
    } else if cut < |EncodeCommand(cs[0])| {
      j, torn := 0, EncodeCommand(cs[0])[..cut];
      assert EncodeAll(cs)[..cut] == torn && EncodeAll(cs[..0]) == [] && [] + torn == torn;
    } else {
      var e, rest := EncodeCommand(cs[0]), EncodeAll(cs[1..]);
      var j', torn' := CutAt(cs[1..], cut - |e|);
      j, torn := j' + 1, torn';
      assert cs[..j][1..] == cs[1..][..j'] && cs[..j][0] == cs[0];
      assert j < |cs| ==> cs[j] == cs[1..][j'];
      assert EncodeAll(cs[..j]) == e + EncodeAll(cs[1..][..j']);
      calc {
        EncodeAll(cs)[..cut];
        (e + rest)[..cut];
        e + rest[..cut - |e|];
        e + (EncodeAll(cs[1..][..j']) + torn);
        EncodeAll(cs[..j]) + torn;
      }
    }
  }

  /** The last prefix, of up to `j` commands, that has no MULTI open. */
  lemma {:induction false} LastClosed(cs: seq<Command>, j: nat) returns (m: nat)
    requires j <= |cs| && forall i :: 0 <= i <= |cs| ==> ClientLog.Follow(false, cs[..i]).Some?
    ensures m <= j && ClientLog.Follow(false, cs[..m]) == Some(false)
    ensures forall i :: m < i <= j ==> ClientLog.Follow(false, cs[..i]) == Some(true)
    decreases j
  {
    hide ClientLog.Follow;
    if j == 0 {
      assert cs[..0] == [];
      NothingFollows();
      m := 0;
    } else if ClientLog.Follow(false, cs[..j]) == Some(false) {
      m := j;
    } else {
      m := LastClosed(cs, j - 1);
      assert ClientLog.Follow(false, cs[..j]).Some? && ClientLog.Follow(false, cs[..j]).value;
      forall i | m < i <= j ensures ClientLog.Follow(false, cs[..i]) == Some(true) {
        if i == j { assert ClientLog.Follow(false, cs[..j]) == Some(true); }
      }
    }
  }

  lemma NothingFollows()
    ensures ClientLog.Follow(false, []) == Some(false)
  {
  }

  /** Where the tool cuts off a log whose last write was torn: behind the last whole
      command that leaves no MULTI open. */
  lemma {:induction false} ToolCuts(log: bytes, cs: seq<Command>, cut: nat) returns (m: nat)
    requires Reads(log, false) && AllWritable(cs) && cut <= |EncodeAll(cs)|
    requires forall i :: 0 <= i <= |cs| ==> ClientLog.Follow(false, cs[..i]).Some?
    ensures m <= |cs| && ClientLog.Follow(false, cs[..m]) == Some(false)
    ensures var s, p := log + EncodeAll(cs)[..cut], |log| + |EncodeAll(cs[..m])|;
      && p <= |s| && s[..p] == log + EncodeAll(cs[..m])
      && CheckAof.Sound(s, p) && forall q: nat :: CheckAof.Sound(s, q) ==> q <= p
  {
    hide CheckAof.After, ClientLog.Follow, EncodeCommand, CheckAof.Plain, CheckAof.Sound, CheckAof.ReadCommand;
    var k: nat :| CheckAof.After(log, k) == Some((|log|, false));
    var j, torn := CutAt(cs, cut);
    m := LastClosed(cs, j);
    var s := log + EncodeAll(cs)[..cut];
    forall i | 0 <= i <= j
      ensures var o := ClientLog.Follow(false, cs[..i]);
        o.Some? && CheckAof.After(s, k + i) == Some((|log| + |EncodeAll(cs[..i])|, o.value))
    {
      PrefixAfter(log, k, cs, j, i, torn, s);
    }
    var at := |log| + |EncodeAll(cs[..j])|;
    assert s[at..] == torn;
    TornStops(cs, j, torn);
    CheckAof.Stops(s, k + j, at, ClientLog.Follow(false, cs[..j]).value);
    forall i | k + m < i <= k + j ensures CheckAof.After(s, i).Some? && CheckAof.After(s, i).value.1 {
      PrefixAfter(log, k, cs, j, i - k, torn, s);
    }
    CheckAof.Longest(s, k + j, k + m, |log| + |EncodeAll(cs[..m])|);
    PrefixBytes(cs, m, j);
    assert EncodeAll(cs[..m]) <= EncodeAll(cs)[..cut];
  }

  lemma PrefixBytes(cs: seq<Command>, m: nat, j: nat)
    requires m <= j <= |cs|
    ensures EncodeAll(cs[..m]) <= EncodeAll(cs[..j])
  {
    assert cs[..j] == cs[..m] + cs[m..j];
    EncodeAllConcat(cs[..m], cs[m..j]);
  }

  lemma PrefixAfter(log: bytes, k: nat, cs: seq<Command>, j: nat, i: nat, torn: bytes, s: bytes)
    requires CheckAof.After(log, k) == Some((|log|, false)) && AllWritable(cs) && i <= j <= |cs|
    requires ClientLog.Follow(false, cs[..i]).Some? && s == log + (EncodeAll(cs[..j]) + torn)
    ensures CheckAof.After(s, k + i) ==
      Some((|log| + |EncodeAll(cs[..i])|, ClientLog.Follow(false, cs[..i]).value))
  {
    hide CheckAof.After, ClientLog.Follow, EncodeCommand, CheckAof.Plain;
    assert cs[..j] == cs[..i] + cs[i..j];
    EncodeAllConcat(cs[..i], cs[i..j]);
    var rest := EncodeAll(cs[i..j]) + torn;
    AfterMore(log, k, false, cs[..i], rest);
    assert s == log + EncodeAll(cs[..i]) + rest;
  }

  lemma TornStops(cs: seq<Command>, j: nat, torn: bytes)
    requires AllWritable(cs) && j <= |cs|
    requires if j == |cs| then torn == []
             else |torn| < |EncodeCommand(cs[j])| && torn == EncodeCommand(cs[j])[..|torn|]
    ensures CheckAof.ReadCommand(torn).Err?
  {
    hide EncodeCommand, CheckAof.Plain;
    if j < |cs| {
      hide CheckAof.ReadCommand;
      CheckAof.TornRead(cs[j], |torn|);
    } else {
      CheckAof.EndOfFile(torn, STAR);
      assert torn[|torn|..] == torn;
    }
  }
  // ---- where a prefix of what was fed ends ------------------------------------------

  lemma RunCons(apply: Effect, dbnum: nat, w: World, es: seq<AofLog.Event>, i: nat)
    requires PossibleRun(apply, dbnum, w, es) && 0 < i <= |es|
    requires PossibleRun(apply, dbnum, AofLog.Next(apply, w, es[0]), es[1..][..i - 1])
    ensures PossibleRun(apply, dbnum, w, es[..i])
    ensures var w1 := AofLog.Next(apply, w, es[0]);
      && AofLog.Run(apply, dbnum, w, es[..i]) == AofLog.Run(apply, dbnum, w1, es[1..][..i - 1])
      && FedAll(apply, dbnum, w, es[..i]) == FedBy(w, es[0]) + FedAll(apply, dbnum, w1, es[1..][..i - 1])
  {
    hide AofLog.Next, FedBy, Snapshot, Fits, Control, AsRun;
    assert es[..i][0] == es[0] && es[..i][1..] == es[1..][..i - 1];
  }

  /** The prefix ends before the event `i`, or `t` commands into what it feeds. */
  lemma {:induction false} Locate(apply: Effect, dbnum: nat, w: World, es: seq<AofLog.Event>, m: nat)
    returns (i: nat, t: nat)
    requires PossibleRun(apply, dbnum, w, es) && m <= |FedAll(apply, dbnum, w, es)|
    ensures i <= |es| && PossibleRun(apply, dbnum, w, es[..i])
    ensures var wi := AofLog.Run(apply, dbnum, w, es[..i]);
      if i == |es| then t == 0 && FedAll(apply, dbnum, w, es)[..m] == FedAll(apply, dbnum, w, es[..i])
      else
        && Possible(dbnum, wi, es[i]) && t < |FedBy(wi, es[i])|
        && FedAll(apply, dbnum, w, es)[..m] == FedAll(apply, dbnum, w, es[..i]) + FedBy(wi, es[i])[..t]
    decreases |es|
  {
    hide AofLog.Next, FedBy, Snapshot, Fits, Control, AsRun;
    if es == [] {
      i, t := 0, 0;
    } else {
      var w1 := AofLog.Next(apply, w, es[0]);
      assert PossibleRun(apply, dbnum, w1, es[1..]);
      var f, rest := FedBy(w, es[0]), FedAll(apply, dbnum, w1, es[1..]);
      if m < |f| {
        i, t := 0, m;
        assert es[..0] == [] && (f + rest)[..m] == [] + f[..m];
      } else {
        var i';
        i', t := Locate(apply, dbnum, w1, es[1..], m - |f|);
        i := i' + 1;
        RunCons(apply, dbnum, w, es, i);
        assert (f + rest)[..m] == f + rest[..m - |f|];
        var done := FedAll(apply, dbnum, w1, es[1..][..i']);
        if i < |es| {
          var part := FedBy(AofLog.Run(apply, dbnum, w, es[..i]), es[i])[..t];
          assert f + (done + part) == f + done + part;
        }
      }
    }
  }

  lemma {:induction false} SoberPrefix(apply: Effect, dbnum: nat, w: World, es: seq<AofLog.Event>, i: nat)
    requires PossibleRun(apply, dbnum, w, es) && SoberRun(apply, dbnum, w, es) && i <= |es|
    ensures PossibleRun(apply, dbnum, w, es[..i]) && SoberRun(apply, dbnum, w, es[..i])
    ensures var wi := AofLog.Run(apply, dbnum, w, es[..i]);
      i < |es| ==> Possible(dbnum, wi, es[i]) && Steady(es[i]) && Sober(wi, es[i])
    ensures var wi := AofLog.Run(apply, dbnum, w, es[..i]);
      && PossibleRun(apply, dbnum, wi, es[i..]) && SoberRun(apply, dbnum, wi, es[i..])
    decreases |es|
  {
    hide AofLog.Next, FedBy, Snapshot, Fits, Control, AsRun, Sober, Steady;
    if i == 0 {
      assert es[..0] == [] && es[0..] == es;
    } else {
      var w1 := AofLog.Next(apply, w, es[0]);
      assert PossibleRun(apply, dbnum, w1, es[1..]);
      SoberPrefix(apply, dbnum, w1, es[1..], i - 1);
      RunCons(apply, dbnum, w, es, i);
      assert es[..i][0] == es[0] && es[..i][1..] == es[1..][..i - 1];
      assert es[1..][i - 1..] == es[i..];
    }
  }

  lemma {:induction false} StillOn(apply: Effect, dbnum: nat, w: World, es: seq<AofLog.Event>)
    requires PossibleRun(apply, dbnum, w, es) && SoberRun(apply, dbnum, w, es) && InStep(w)
    ensures var w' := AofLog.Run(apply, dbnum, w, es);
      && InStep(w') && (w.synced && w.flushed.Some? ==> w'.synced && w'.flushed.Some?)
    decreases |es|
  {
    hide AofLog.Next, FedBy, Snapshot, Fits, Control, AsRun, Sober, Steady, InStep;
    if es != [] {
      SteadyStep(apply, dbnum, w, es[0]);
      StillOn(apply, dbnum, AofLog.Next(apply, w, es[0]), es[1..]);
    }
  }

  /** The brackets of what a run feeds are its transactions. */
  lemma {:induction false} FollowAll(apply: Effect, dbnum: nat, w: World, es: seq<AofLog.Event>)
    requires PossibleRun(apply, dbnum, w, es) && SoberRun(apply, dbnum, w, es) && InStep(w)
    ensures ClientLog.Follow(w.txn, FedAll(apply, dbnum, w, es)) == Some(AofLog.Run(apply, dbnum, w, es).txn)
    decreases |es|
  {
    hide AofLog.Next, FedBy, Snapshot, Fits, Control, AsRun, Sober, Steady, ClientLog.Follow;
    if es == [] {
      NothingOpens(w.txn);
    } else {
      var w1 := AofLog.Next(apply, w, es[0]);
      assert PossibleRun(apply, dbnum, w1, es[1..]);
      var f := FedBy(w, es[0]);
      EventFollow(apply, dbnum, w, es[0], |f|);
      assert f[..|f|] == f;
      SteadyStep(apply, dbnum, w, es[0]);
      FollowAll(apply, dbnum, w1, es[1..]);
      FollowConcat(w.txn, f, FedAll(apply, dbnum, w1, es[1..]));
    }
  }

  lemma NothingOpens(open: bool)
    ensures ClientLog.Follow(open, []) == Some(open)
  {
  }

  /** A prefix leaves a MULTI open exactly when it ends inside a transaction. */
  lemma {:induction false} FollowLocated(apply: Effect, dbnum: nat, w: World, es: seq<AofLog.Event>, m: nat)
    returns (i: nat, t: nat)
    requires PossibleRun(apply, dbnum, w, es) && SoberRun(apply, dbnum, w, es) && InStep(w)
    requires m <= |FedAll(apply, dbnum, w, es)|
    ensures i <= |es| && PossibleRun(apply, dbnum, w, es[..i])
    ensures var wi := AofLog.Run(apply, dbnum, w, es[..i]);
      && ClientLog.Follow(w.txn, FedAll(apply, dbnum, w, es)[..m]) == Some(wi.txn)
      && if i == |es| then t == 0 && FedAll(apply, dbnum, w, es)[..m] == FedAll(apply, dbnum, w, es[..i])
         else
           && Possible(dbnum, wi, es[i]) && t < |FedBy(wi, es[i])|
           && FedAll(apply, dbnum, w, es)[..m] == FedAll(apply, dbnum, w, es[..i]) + FedBy(wi, es[i])[..t]
  {
    hide AofLog.Next, FedBy, Snapshot, Fits, Control, AsRun, Sober, Steady, ClientLog.Follow, PossibleRun, SoberRun,
      AofLog.Run, FedAll, InStep;
    i, t := Locate(apply, dbnum, w, es, m);
    SoberPrefix(apply, dbnum, w, es, i);
    FollowAll(apply, dbnum, w, es[..i]);
    if i < |es| {
      var wi := AofLog.Run(apply, dbnum, w, es[..i]);
      StillOn(apply, dbnum, w, es[..i]);
      OnWhenInStep(wi);
      EventFollow(apply, dbnum, wi, es[i], t);
      FollowConcat(w.txn, FedAll(apply, dbnum, w, es[..i]), FedBy(wi, es[i])[..t]);
    }
  }

  lemma OnWhenInStep(w: World)
    requires InStep(w)
    ensures w.core.on && w.core.open
  {
  }

  // ---- what is loaded ------------------------------------------------------------

  predicate Setex(c: Command) {
    Name(c) == SETEX && |c| == 4
  }

  /** The data after an event of whose commands only the first `t` have been written:
      those of a SETEX are a SET and an EXPIREAT. */
  function TornData(w: World, e: AofLog.Event, t: nat): Dataset {
    if e.Execute? && Setex(AsRun(e.cmd, e.now)) && t + 1 == |FedBy(w, e)| then
      w.data[(e.db, AsRun(e.cmd, e.now)[1]) := Entry(Str(AsRun(e.cmd, e.now)[3]), None)]
    else w.data
  }

  /** The SELECT, if one was needed, and the SET if that is what was written. */
  lemma PartFed(apply: Effect, dbnum: nat, w: World, log: bytes, e: AofLog.Event, t: nat)
    requires Represents(apply, dbnum, log, w) && !w.txn && w.core.on
    requires Possible(dbnum, w, e) && Sober(w, e) && t < |FedBy(w, e)|
    ensures Load(apply, dbnum, log + EncodeAll(FedBy(w, e)[..t])) == Ok(TornData(w, e, t))
  {
    hide Decode, EncodeAll, Live, Replay, Fits, Temp, Snapshot, CheckAof.Plain, Loadable, Control, Upper, Atol, Print;
    var part := FedBy(w, e)[..t];
    LoadableWhenPlain(FedBy(w, e), t);
    LogGrows(apply, dbnum, log, part);
    var r := Replay(apply, dbnum, START, Decode(log).value);
    PartReplay(apply, dbnum, w, r, e, t);
  }

  lemma LoadableWhenPlain(cs: seq<Command>, t: nat)
    requires AllWritable(cs) && t <= |cs|
    ensures AllLoadable(cs[..t])
  {
    hide Loadable;
  }

  lemma PartReplay(apply: Effect, dbnum: nat, w: World, r: State, e: AofLog.Event, t: nat)
    requires r.data == w.data && !r.multi && w.core.on && (w.core.seldb.Some? ==> r.db == w.core.seldb.value)
    requires Possible(dbnum, w, e) && t < |FedBy(w, e)|
    ensures var r' := Replay(apply, dbnum, r, FedBy(w, e)[..t]); r'.data == TornData(w, e, t) && !r'.multi
  {
    hide AsRun, Live, Fits, Temp, Snapshot, CheckAof.Plain, Loadable, Control, Upper, Atol, Print, Replay, Step;
    var f := FedBy(w, e);
    var db := e.db;
    var sel: seq<Command> := if w.core.seldb == Some(db) then [] else [[SELECT, Print(db)]];
    var c := if e.Execute? then AsRun(e.cmd, e.now) else if e.Begin? then [MULTI] else [EXEC];
    var at := if e.Execute? then e.fedAt else 0;
    var tr := Translate(c, at);
    assert f == sel + tr;
    SelectedState(apply, dbnum, r, w.core.seldb, db);
    if t == 0 {
      assert f[..t] == [];
      ReplayNothing(apply, dbnum, r);
    } else if t == |sel| {
      assert f[..t] == sel;
    } else {
      assert |tr| == 2 && t == |sel| + 1;
      NotBracket(c, e);
      assert f[..t] == sel + [[SET, c[1], c[3]]];
      ReplayConcat(apply, dbnum, r, sel, [[SET, c[1], c[3]]]);
      SetReplay(apply, dbnum, r.(db := db), c[1], c[3]);
    }
  }

  lemma NotBracket(c: Command, e: AofLog.Event)
    requires c == if e.Execute? then AsRun(e.cmd, e.now) else if e.Begin? then [MULTI] else [EXEC]
    requires |Translate(c, if e.Execute? then e.fedAt else 0)| == 2
    ensures e.Execute? && Setex(c)
  {
    hide AsRun, Upper;
  }

  lemma ReplayNothing(apply: Effect, dbnum: nat, s: State)
    ensures Replay(apply, dbnum, s, []) == s
  {
  }

  lemma SelectedState(apply: Effect, dbnum: nat, s: State, seldb: Option<nat>, db: nat)
    requires db < dbnum && (seldb.Some? ==> s.db == seldb.value)
    ensures Replay(apply, dbnum, s, if seldb == Some(db) then [] else [[SELECT, Print(db)]]) == s.(db := db)
  {
    hide Step, Print;
    if seldb != Some(db) {
      ReplayOne(apply, dbnum, s, [SELECT, Print(db)]);
      SelectReplay(apply, dbnum, s, db);
    }
  }

  lemma SetReplay(apply: Effect, dbnum: nat, s: State, key: bytes, text: bytes)
    ensures Replay(apply, dbnum, s, [[SET, key, text]]) == s.(data := s.data[(s.db, key) := Entry(Str(text), None)])
  {
    hide Upper, Atol;
    ReplayOne(apply, dbnum, s, [SET, key, text]);
    DataCommand([SET, key, text]);
  }

  /** From a moment at which the file is up to date: see CrashAnywhere. */
  lemma {:induction false} TornWrite(
      apply: Effect, dbnum: nat, w: World, es: seq<AofLog.Event>, cut: nat)
    returns (i: nat, t: nat, p: nat)
    requires AofLog.Inv(apply, dbnum, w) && InStep(w) && w.synced && w.flushed.Some? && !w.txn && w.core.aofbuf == []
    requires Reads(w.core.file, false)
    requires PossibleRun(apply, dbnum, w, es) && SoberRun(apply, dbnum, w, es)
    requires forall j :: 0 <= j < |es| ==> !Settles(es[j])
    requires cut <= |AofLog.Run(apply, dbnum, w, es).core.aofbuf|
    ensures AofLog.Run(apply, dbnum, w, es).core.file == w.core.file
    ensures var s := w.core.file + AofLog.Run(apply, dbnum, w, es).core.aofbuf[..cut];
      && p <= |s| && CheckAof.Sound(s, p) && (forall q: nat :: CheckAof.Sound(s, q) ==> q <= p)
      && i <= |es| && PossibleRun(apply, dbnum, w, es[..i])
      && var wi := AofLog.Run(apply, dbnum, w, es[..i]);
      && !wi.txn && (i < |es| ==> t < |FedBy(wi, es[i])|)
      && Load(apply, dbnum, s[..p]) == Ok(if i < |es| then TornData(wi, es[i], t) else wi.data)
  {
    hide AofLog.Next, FedBy, Snapshot, Fits, Control, AsRun, Sober, Steady, ClientLog.Follow, PossibleRun, SoberRun,
      AofLog.Run, FedAll, InStep, AofLog.Inv, Reads, CheckAof.Sound, Load, TornData, EncodeAll, Settles, Represents,
      Possible, CheckAof.Plain, CheckAof.Says;
    var cs := FedAll(apply, dbnum, w, es);
    BufferIs(apply, dbnum, w, es);
    assert [] + EncodeAll(cs) == EncodeAll(cs);
    FedWritable(apply, dbnum, w, es);
    forall m | 0 <= m <= |cs| ensures ClientLog.Follow(false, cs[..m]).Some? {
      var _, _ := FollowLocated(apply, dbnum, w, es, m);
    }
    var m := ToolCuts(w.core.file, cs, cut);
    p := |w.core.file| + |EncodeAll(cs[..m])|;
    i, t := FollowLocated(apply, dbnum, w, es, m);
    SoberPrefix(apply, dbnum, w, es, i);
    LocatedLoads(apply, dbnum, w, es, i, t, cs[..m]);
  }

  lemma {:induction false} FedWritable(apply: Effect, dbnum: nat, w: World, es: seq<AofLog.Event>)
    requires PossibleRun(apply, dbnum, w, es) && SoberRun(apply, dbnum, w, es)
    ensures AllWritable(FedAll(apply, dbnum, w, es))
    decreases |es|
  {
    hide AofLog.Next, FedBy, Snapshot, Fits, Control, AsRun, Steady, CheckAof.Plain;
    if es != [] {
      FedWritable(apply, dbnum, AofLog.Next(apply, w, es[0]), es[1..]);
    }
  }

  lemma LocatedLoads(
      apply: Effect, dbnum: nat, w: World, es: seq<AofLog.Event>, i: nat, t: nat, cs: seq<Command>)
    requires AofLog.Inv(apply, dbnum, w) && InStep(w) && w.synced && w.flushed.Some? && w.core.aofbuf == []
    requires i <= |es| && PossibleRun(apply, dbnum, w, es[..i]) && SoberRun(apply, dbnum, w, es[..i])
    requires forall j :: 0 <= j < |es| ==> !Settles(es[j])
    requires var wi := AofLog.Run(apply, dbnum, w, es[..i]);
      && !wi.txn
      && (i < |es| ==> Possible(dbnum, wi, es[i]) && Sober(wi, es[i]) && t < |FedBy(wi, es[i])|)
      && cs == FedAll(apply, dbnum, w, es[..i]) + (if i < |es| then FedBy(wi, es[i])[..t] else [])
    ensures var wi := AofLog.Run(apply, dbnum, w, es[..i]);
      Load(apply, dbnum, w.core.file + EncodeAll(cs)) == Ok(if i < |es| then TornData(wi, es[i], t) else wi.data)
  {
    hide AofLog.Next, FedBy, Snapshot, Fits, Control, AsRun, Sober, Steady, PossibleRun, SoberRun,
      AofLog.Run, FedAll, InStep, Load, TornData, EncodeAll, Settles, Represents, Possible;
    var wi := AofLog.Run(apply, dbnum, w, es[..i]);
    BufferIs(apply, dbnum, w, es[..i]);
    StillOn(apply, dbnum, w, es[..i]);
    RunKeeps(apply, dbnum, w, es[..i]);
    OnWhenInStep(wi);
    var done := FedAll(apply, dbnum, w, es[..i]);
    assert [] + EncodeAll(done) == EncodeAll(done);
    var log := wi.core.file + wi.core.aofbuf;
    if i < |es| {
      var part := FedBy(wi, es[i])[..t];
      PartFed(apply, dbnum, wi, log, es[i], t);
      EncodeAllConcat(done, part);
      assert w.core.file + (EncodeAll(done) + EncodeAll(part)) == w.core.file + EncodeAll(done) + EncodeAll(part);
    } else {
      assert done + [] == done;
      RepresentsLoads(apply, dbnum, log, wi);
    }
  }

  // ---- whole runs ---------------------------------------------------------------------

  /** What is in the file, and what will be, can be read to its end by the tool. */
  ghost predicate Legible(w: World) {
    && Reads(w.core.file, false) && Reads(w.core.file + w.core.aofbuf, w.txn)
    && (if w.core.child.Some? then Reads(w.core.child.value + w.core.diff, w.txn) else w.core.diff == [])
  }

  lemma SettledLegible(apply: Effect, dbnum: nat, w: World, e: AofLog.Event)
    requires Legible(w) && InStep(w) && Possible(dbnum, w, e) && Settles(e)
    ensures Legible(AofLog.Next(apply, w, e))
  {
    hide Reads, Fits, Snapshot, Control;
    assert w.core.file + w.core.aofbuf + [] == w.core.file + w.core.aofbuf;
    if e.ChildExit? {
      assert w.core.child.value + w.core.diff + [] == w.core.child.value + w.core.diff;
    }
  }

  lemma {:induction false} NextLegible(apply: Effect, dbnum: nat, w: World, e: AofLog.Event)
    requires Legible(w) && InStep(w) && Possible(dbnum, w, e) && Steady(e) && Sober(w, e)
    ensures Legible(AofLog.Next(apply, w, e))
  {
    hide Reads, Live, AsRun, Control, FeedCommands, Fits, Unexpired, FedBy, ClientLog.Follow, CheckAof.Plain, Snapshot,
      DumpOk, DumpData, AofLog.Next, EncodeAll, RewriteCommands, Feed;
    if Settles(e) {
      SettledLegible(apply, dbnum, w, e);
    } else {
      var f, w' := FedBy(w, e), AofLog.Next(apply, w, e);
      NextBuffer(apply, dbnum, w, e);
      NextChild(apply, dbnum, w, e);
      EventFollow(apply, dbnum, w, e, |f|);
      assert f[..|f|] == f;
      ReadsMore(w.core.file + w.core.aofbuf, w.txn, f);
      assert w.core.file + w.core.aofbuf + EncodeAll(f) == w.core.file + (w.core.aofbuf + EncodeAll(f));
      if e.Fork? {
        RewriteReads(e.dump, e.at);
        assert Temp(e.dump, e.at) + [] == Temp(e.dump, e.at);
      } else if w'.core.child.Some? {
        ReadsMore(w.core.child.value + w.core.diff, w.txn, f);
        assert w.core.child.value + w.core.diff + EncodeAll(f) == w.core.child.value + (w.core.diff + EncodeAll(f));
      }
    }
  }

  lemma NextChild(apply: Effect, dbnum: nat, w: World, e: AofLog.Event)
    requires Possible(dbnum, w, e) && InStep(w) && Steady(e) && !Settles(e)
    ensures var w' := AofLog.Next(apply, w, e);
      if e.Fork? then w.core.child == None && w'.core.child == Some(Temp(e.dump, e.at)) && w'.core.diff == w.core.diff
                      && w'.txn == w.txn
      else if e.ChildExit? then w'.core.child == None && w'.core.diff == []
      else w'.core.child == w.core.child
  {
    hide Live, AsRun, Control, FeedCommands, Temp, Fits, Unexpired, EncodeAll;
  }

  /** A rewrite has no brackets. */
  lemma RewriteReads(dump: Dump, now: int)
    requires AllWritable(RewriteCommands(dump, now))
    ensures Reads(EncodeAll(RewriteCommands(dump, now)), false)
  {
    hide RewriteCommands, CheckAof.Plain, ClientLog.Follow, CheckAof.Says;
    var cs := RewriteCommands(dump, now);
    RewriteNeutral(dump, now);
    AllNeutral(cs, false, |cs|);
    assert cs[..|cs|] == cs;
    NothingRead();
    ReadsMore([], false, cs);
    assert [] + EncodeAll(cs) == EncodeAll(cs);
  }

  lemma NothingRead()
    ensures Reads([], false)
  {
    assert CheckAof.After([], 0) == Some((0, false));
  }

  predicate NoBrackets(cs: seq<Command>) {
    forall i :: 0 <= i < |cs| ==> !CheckAof.Says(cs[i], MULTI) && !CheckAof.Says(cs[i], EXEC)
  }

  lemma {:induction false} RewriteNeutral(dump: Dump, now: int)
    ensures NoBrackets(RewriteCommands(dump, now))
    decreases |dump|
  {
    hide CheckAof.Says, Print, ItemsCommands;
    if dump != [] {
      var j := |dump| - 1;
      RewriteNeutral(dump[..j], now);
      ItemsNeutral(dump[j], now);
      ClientLog.SelectNeutral(j);
    }
  }

  lemma {:induction false} ItemsNeutral(items: seq<AofRewrite.Item>, now: int)
    ensures NoBrackets(ItemsCommands(items, now))
    decreases |items|
  {
    hide CheckAof.Says, Print, Elements;
    if items != [] {
      var last := items[|items| - 1];
      ItemsNeutral(items[..|items| - 1], now);
      ElementsNeutral(last.key, last.shape, Count(last.shape));
      if last.expire.Some? { CommandNeutral([EXPIREAT, last.key, Print(last.expire.value)]); }
    }
  }

  lemma {:induction false} ElementsNeutral(key: bytes, sh: Shape, n: nat)
    requires n <= Count(sh)
    ensures NoBrackets(Elements(key, sh, n))
    decreases n
  {
    hide CheckAof.Says;
    if n > 0 {
      ElementsNeutral(key, sh, n - 1);
      CommandNeutral(Element(key, sh, n - 1));
    }
  }

  lemma CommandNeutral(c: Command)
    requires c != []
    requires c[0] == SET || c[0] == RPUSH || c[0] == SADD || c[0] == ZADD || c[0] == HSET || c[0] == EXPIREAT
    ensures !CheckAof.Says(c, MULTI) && !CheckAof.Says(c, EXEC)
  {
    DataCommand(c);
    ClientLog.SaysName(c, MULTI);
    ClientLog.SaysName(c, EXEC);
  }

  lemma {:induction false} RunLegible(apply: Effect, dbnum: nat, w: World, es: seq<AofLog.Event>)
    requires Legible(w) && InStep(w) && PossibleRun(apply, dbnum, w, es) && SoberRun(apply, dbnum, w, es)
    ensures Legible(AofLog.Run(apply, dbnum, w, es))
    decreases |es|
  {
    hide AofLog.Next, Snapshot, Fits, Control, AsRun, Sober, Steady, InStep, Legible;
    if es != [] {
      NextLegible(apply, dbnum, w, es[0]);
      SteadyStep(apply, dbnum, w, es[0]);
      RunLegible(apply, dbnum, AofLog.Next(apply, w, es[0]), es[1..]);
    }
  }

  /** When the file was last brought up to date. */
  lemma {:induction false} LastSettled(apply: Effect, dbnum: nat, w: World, es: seq<AofLog.Event>) returns (f: nat)
    requires InStep(w) && w.core.aofbuf == [] && !w.txn
    requires PossibleRun(apply, dbnum, w, es) && SoberRun(apply, dbnum, w, es)
    ensures f <= |es| && PossibleRun(apply, dbnum, w, es[..f])
    ensures AofLog.Run(apply, dbnum, w, es[..f]).core.aofbuf == [] && !AofLog.Run(apply, dbnum, w, es[..f]).txn
    ensures forall j :: f <= j < |es| ==> !Settles(es[j])
    decreases |es|
  {
    hide AofLog.Next, Snapshot, Fits, Control, AsRun, Sober, Steady, InStep, Settles;
    if es == [] {
      f := 0;
      assert es[..0] == [];
    } else {
      var init, e := es[..|es| - 1], es[|es| - 1];
      assert es == init + [e] && [e][1..] == [];
      SoberPrefix(apply, dbnum, w, es, |init|);
      RunConcat(apply, dbnum, w, init, [e]);
      var w1 := AofLog.Run(apply, dbnum, w, init);
      if Settles(e) {
        f := |es|;
        assert es[..f] == es;
        StillOn(apply, dbnum, w, init);
        assert AofLog.Run(apply, dbnum, w1, [e]) == AofLog.Next(apply, w1, e);
        SettledNow(apply, dbnum, w1, e);
      } else {
        f := LastSettled(apply, dbnum, w, init);
        assert es[..f] == init[..f];
      }
    }
  }

  lemma SettledNow(apply: Effect, dbnum: nat, w: World, e: AofLog.Event)
    requires Possible(dbnum, w, e) && InStep(w) && Settles(e)
    ensures var w' := AofLog.Next(apply, w, e); w'.core.aofbuf == [] && !w'.txn
  {
  }

  /**
  A crash at any moment. Take any run of a server with its log on since the start,
  with commands fed in the second they run and rewrites that start outside
  transactions; let the process die when any part of the buffer has been written. The
  tool cuts the file at `p`, and what is left loads to the data as it was after the
  first `i` events, outside any transaction -- or, when the event `i` is a SETEX of
  which only the SET was written, to that data with the key and without its deadline.
  */
  lemma {:induction false} CrashAnywhere(
      apply: Effect, dbnum: nat, file: bytes, data: Dataset, es: seq<AofLog.Event>, cut: nat)
    returns (i: nat, t: nat, p: nat)
    requires Load(apply, dbnum, file) == Ok(data) && Reads(file, false)
    requires PossibleRun(apply, dbnum, Booted(file, data, true), es)
    requires SoberRun(apply, dbnum, Booted(file, data, true), es)
    requires cut <= |AofLog.Run(apply, dbnum, Booted(file, data, true), es).core.aofbuf|
    ensures var w := AofLog.Run(apply, dbnum, Booted(file, data, true), es);
      var s := w.core.file + w.core.aofbuf[..cut];
      && p <= |s| && CheckAof.Sound(s, p) && (forall q: nat :: CheckAof.Sound(s, q) ==> q <= p)
      && i <= |es| && PossibleRun(apply, dbnum, Booted(file, data, true), es[..i])
      && var wi := AofLog.Run(apply, dbnum, Booted(file, data, true), es[..i]);
      && !wi.txn && (i < |es| ==> t < |FedBy(wi, es[i])|)
      && Load(apply, dbnum, s[..p]) == Ok(if i < |es| then TornData(wi, es[i], t) else wi.data)
  {
    hide AofLog.Next, FedBy, Snapshot, Fits, Control, AsRun, Sober, Steady, PossibleRun, SoberRun,
      AofLog.Run, InStep, Reads, CheckAof.Sound, Load, TornData, Settles, Possible, AofLog.Inv;
    var w0 := Booted(file, data, true);
    BootedOk(apply, dbnum, file, data);
    var f := LastSettled(apply, dbnum, w0, es);
    SoberPrefix(apply, dbnum, w0, es, f);
    var wf, seg := AofLog.Run(apply, dbnum, w0, es[..f]), es[f..];
    RunKeeps(apply, dbnum, w0, es[..f]);
    StillOn(apply, dbnum, w0, es[..f]);
    RunLegible(apply, dbnum, w0, es[..f]);
    assert es[..f] + seg == es;
    RunConcat(apply, dbnum, w0, es[..f], seg);
    forall j | 0 <= j < |seg| ensures !Settles(seg[j]) { assert seg[j] == es[f + j]; }
    var i';
    i', t, p := TornWrite(apply, dbnum, wf, seg, cut);
    i := f + i';
    assert es[..i] == es[..f] + seg[..i'];
    SoberPrefix(apply, dbnum, w0, es, i);
    RunConcat(apply, dbnum, w0, es[..f], seg[..i']);
    assert i < |es| ==> es[i] == seg[i'];
  }

  lemma BootedOk(apply: Effect, dbnum: nat, file: bytes, data: Dataset)
    requires Load(apply, dbnum, file) == Ok(data) && Reads(file, false)
    ensures var w := Booted(file, data, true);
      AofLog.Inv(apply, dbnum, w) && InStep(w) && Legible(w) && w.synced && w.flushed.Some?
  {
    hide Decode, Replay, Reads;
    assert file + [] == file;
  }

  // ---- where it goes wrong ---------------------------------------------------------------

  const SETEX_TEN: Command := [SETEX, [107], [49, 48], [118]]

  /** SETEX k 10 v in second 100, of which the SELECT and the SET were written: the key
      comes back without a deadline. */
  lemma {:induction false} TornSetex(apply: Effect, dbnum: nat)
    requires dbnum > 0
    ensures var w, e := Booted([], map[], true), Execute(0, SETEX_TEN, 100, 100);
      && FedBy(w, e) == [[SELECT, Print(0)], [SET, [107], [118]], [EXPIREAT, [107], Print(110)]]
      && AofLog.Next(apply, w, e).data == map[(0, [107]) := Entry(Str([118]), Some(110))]
      && Load(apply, dbnum, EncodeAll(FedBy(w, e)[..2])) == Ok(map[(0, [107]) := Entry(Str([118]), None)])
  {
    var w, e := Booted([], map[], true), Execute(0, SETEX_TEN, 100, 100);
    TenFacts();
    hide Upper, Atol, Print, Decode, EncodeAll;
    assert AsRun(SETEX_TEN, 100) == SETEX_TEN;
    var f := FedBy(w, e);
    assert f == [[SELECT, Print(0)], [SET, [107], [118]], [EXPIREAT, [107], Print(110)]];
    assert f[..2] == [[SELECT, Print(0)], [SET, [107], [118]]];
    TenLoads(apply, dbnum);
  }

  lemma TenFacts()
    ensures Atol([49, 48]) == 10 && Name(SETEX_TEN) == SETEX
  {
    assert Digits(10) == Digits(1) + [48] == [49, 48];
    AtolPrint(10);
  }

  lemma TenLoads(apply: Effect, dbnum: nat)
    requires dbnum > 0
    ensures Load(apply, dbnum, EncodeAll([[SELECT, Print(0)], [SET, [107], [118]]])) ==
      Ok(map[(0, [107]) := Entry(Str([118]), None)])
  {
    hide Upper, Atol, Decode, EncodeAll, Step, Replay;
    var sel, one: Command := [SELECT, Print(0)], [SET, [107], [118]];
    assert |Print(0)| == 1;
    LoadEncoded(apply, dbnum, [sel, one]);
    assert [sel, one] == [sel] + [one];
    ReplayConcat(apply, dbnum, START, [sel], [one]);
    ReplayOne(apply, dbnum, START, sel);
    SelectReplay(apply, dbnum, START, 0);
    SetReplay(apply, dbnum, START, [107], [118]);
  }

  /** A rewrite that starts while an EXEC runs its queue: the new file gets the EXEC
      without its MULTI, and the tool rejects it from there on. */
  lemma {:induction false} ForkInside(dump: Dump, now: int, db: nat, more: seq<Command>)
    requires AllWritable(RewriteCommands(dump, now) + FeedCommands(None, db, [EXEC], 0) + more)
    ensures var cs := RewriteCommands(dump, now) + FeedCommands(None, db, [EXEC], 0) + more;
      !CheckAof.Sound(EncodeAll(cs), |EncodeAll(cs)|)
  {
    hide RewriteCommands, CheckAof.Plain, CheckAof.Says, Print, CheckAof.Sound, EncodeAll;
    var a, sel := RewriteCommands(dump, now), [SELECT, Print(db)];
    var cs := a + FeedCommands(None, db, [EXEC], 0) + more;
    ClientLog.TranslatedBracket(0);
    ClientLog.SelectNeutral(db);
    RewriteNeutral(dump, now);
    assert cs == a + ([sel] + ([[EXEC]] + more));
    ClientLog.FollowNeutral(false, a, [sel] + ([[EXEC]] + more));
    ClientLog.FollowNeutral(false, [sel], [[EXEC]] + more);
    assert ([[EXEC]] + more)[0] == [EXEC];
    ClientLog.WholeSound(cs);
    ClientLog.BracketsFollow(cs);
  }
}
