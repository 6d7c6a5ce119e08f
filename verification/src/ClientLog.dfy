/**
From the requests of clients to the bytes of the append only file and back: what a
run of module MultiModel feeds, encoded with the SELECTs in between (aof.c:203-246),
is read by the loader and by redis-check-aof.
*/
module ClientLog {
  import opened Common
  import opened Decimal
  import opened Resp
  import opened AofCodec
  import opened AofReplay
  import AofLog
  import CheckAof
  import MultiModel
  import MultiRuns
  import WatchIndex

  type Line = MultiModel.Line

  /** The time at which a line is fed, and whether appendseldb has been set to -1
      since the line before (a rewrite has started or ended, the log was stopped). */
  type Moment = (int, bool)

  /** The command that is written for a line. */
  function CommandOf(l: Line): Command {
    match l
    case Opening(_, _) => [MULTI]
    case Closing(_, _) => [EXEC]
    case Plain(_, _, cmd) => if cmd.Data? || cmd.Flush? || cmd.Assign? then cmd.argv else []
    case Expired(_, key) => [DEL, key]
  }

  function FedOf(lines: seq<Line>, at: seq<Moment>): seq<AofLog.Fed>
    requires |at| == |lines|
  {
    if lines == [] then []
    else [AofLog.Fed(lines[0].db, CommandOf(lines[0]), at[0].0, at[0].1)] + FedOf(lines[1..], at[1..])
  }

  /** What feedAppendOnlyFile makes of the lines. */
  function LogOf(lines: seq<Line>, at: seq<Moment>): seq<Command>
    requires |at| == |lines|
  {
    AofLog.FeedLog(None, FedOf(lines, at))
  }

  /** A line of a database that exists; its command is one of the command table that
      does not act on the connection. */
  predicate LineOk(dbnum: nat, l: Line) {
    l.db < dbnum && (l.Plain? ==> CommandOf(l) != [] && 0 !in CommandOf(l)[0] && !Control(CommandOf(l)))
  }

  predicate LinesOk(dbnum: nat, lines: seq<Line>) {
    forall i :: 0 <= i < |lines| ==> LineOk(dbnum, lines[i])
  }

  // ---- brackets -----------------------------------------------------------------

  /** Whether MULTI and EXEC alternate, whoever sends them; the result is whether one
      is left open. */
  function Alternate(open: bool, lines: seq<Line>): Option<bool>
    decreases |lines|
  {
    if lines == [] then Some(open)
    else match lines[0]
      case Opening(_, _) => if open then None else Alternate(true, lines[1..])
      case Closing(_, _) => if open then Alternate(false, lines[1..]) else None
      case _ => Alternate(open, lines[1..])
  }

  lemma {:induction false} AlternateConcat(open: bool, a: seq<Line>, b: seq<Line>)
    ensures Alternate(open, a + b) ==
      if Alternate(open, a) == None then None else Alternate(Alternate(open, a).value, b)
    decreases |a|
  {
    if a == [] {
      assert a + b == b;
    } else {
      assert (a + b)[1..] == a[1..] + b && (a + b)[0] == a[0];
      AlternateConcat(true, a[1..], b);
      AlternateConcat(false, a[1..], b);
    }
  }

  predicate Bracket(l: Line) {
    l.Opening? || l.Closing?
  }

  lemma {:induction false} PlainAlternate(open: bool, lines: seq<Line>)
    requires forall i :: 0 <= i < |lines| ==> !Bracket(lines[i])
    ensures Alternate(open, lines) == Some(open)
    decreases |lines|
  {
    if lines != [] { PlainAlternate(open, lines[1..]); }
  }

  lemma {:induction false} LinesPlain(c: nat, db: nat, q: seq<MultiModel.Cmd>, dirty: int)
    ensures forall l :: l in MultiRuns.Lines(c, db, q, dirty) ==> !Bracket(l)
    decreases |q|
  {
    hide MultiRuns.Counts;
    if q != [] {
      LinesPlain(c, MultiModel.DbAfter(q[0], db), q[1..], MultiModel.Counted(q[0], dirty));
    }
  }

  lemma BlockAlternate(open: bool, c: nat, db: nat, q: seq<MultiModel.Cmd>, dirty: int)
    ensures Alternate(open, MultiRuns.Block(c, db, q, dirty)) ==
      if open then None else Some(!MultiRuns.Closes(q, dirty))
  {
    hide MultiRuns.Lines, MultiRuns.Closes, MultiModel.DbAfterAll;
    var first := [MultiModel.Opening(c, db)];
    var lines, last := MultiRuns.Lines(c, db, q, dirty), MultiModel.Closing(c, MultiModel.DbAfterAll(q, db));
    var end := if MultiRuns.Closes(q, dirty) then [last] else [];
    AlternateConcat(open, first + lines, end);
    AlternateConcat(open, first, lines);
    assert first[1..] == [] && [last][1..] == [];
    LinesPlain(c, db, q, dirty);
    PlainAlternate(true, lines);
  }

  /** An EXEC that runs its queue. */
  predicate Runs(w: MultiModel.World, e: MultiModel.Event) {
    && e.Asked? && e.cmd.Exec? && e.client in w.conns && w.conns[e.client].multi
    && e.client !in w.ix.dirty
  }

  lemma EventAlternate(w: MultiModel.World, e: MultiModel.Event, open: bool)
    ensures Alternate(open, MultiRuns.LogOf(w, e)) ==
      if !Runs(w, e) then Some(open)
      else if open then None else Some(!MultiRuns.Closes(w.conns[e.client].queue, w.dirty))
  {
    hide MultiRuns.Block, MultiRuns.Closes, MultiRuns.Counts;
    if Runs(w, e) {
      BlockAlternate(open, e.client, w.conns[e.client].db, w.conns[e.client].queue, w.dirty);
    } else {
      PlainAlternate(open, MultiRuns.LogOf(w, e));
    }
  }

  /** In the log of a run MULTI and EXEC alternate exactly when it consists of whole
      blocks, each of a single client. */
  lemma {:induction false} AlternateRun(w: MultiModel.World, es: seq<MultiModel.Event>)
    requires MultiRuns.Inv(w) && MultiModel.PossibleRun(w, es)
    requires Alternate(false, w.log) == Some(false) <==> MultiRuns.Read(None, w.log) == Some(None)
    ensures var log := MultiModel.Run(w, es).log;
      Alternate(false, log) == Some(false) <==> MultiRuns.Read(None, log) == Some(None)
    decreases |es|
  {
    hide MultiRuns.Inv, MultiModel.Next, MultiModel.Possible, MultiRuns.Read, Alternate, MultiRuns.LogOf;
    if es != [] {
      var e, w' := es[0], MultiModel.Next(w, es[0]);
      MultiRuns.NextKeeps(w, e);
      MultiRuns.NextLog(w, e);
      MultiRuns.NextBalanced(w, e);
      AlternateConcat(false, w.log, MultiRuns.LogOf(w, e));
      EventAlternate(w, e, true);
      EventAlternate(w, e, false);
      AlternateRun(w', es[1..]);
    }
  }

  /** Whether the last transaction that ran has left its MULTI open. */
  ghost predicate LeftOpen(w: MultiModel.World, es: seq<MultiModel.Event>, open: bool)
    requires MultiModel.PossibleRun(w, es)
    decreases |es|
  {
    if es == [] then open
    else
      LeftOpen(MultiModel.Next(w, es[0]), es[1..],
               if Runs(w, es[0]) then !MultiRuns.Closes(w.conns[es[0].client].queue, w.dirty) else open)
  }

  /** The flag of the loader's client after the lines. */
  function FlagAfter(open: bool, lines: seq<Line>): bool
    decreases |lines|
  {
    if lines == [] then open
    else FlagAfter(if lines[0].Opening? then true else if lines[0].Closing? then false else open, lines[1..])
  }

  lemma {:induction false} FlagConcat(open: bool, a: seq<Line>, b: seq<Line>)
    ensures FlagAfter(open, a + b) == FlagAfter(FlagAfter(open, a), b)
    decreases |a|
  {
    if a == [] {
      assert a + b == b;
    } else {
      assert (a + b)[1..] == a[1..] + b && (a + b)[0] == a[0];
      FlagConcat(if a[0].Opening? then true else if a[0].Closing? then false else open, a[1..], b);
    }
  }

  /** Where MULTI and EXEC alternate, the flag is whether one is open. */
  lemma {:induction false} FlagAlternate(open: bool, lines: seq<Line>)
    requires Alternate(open, lines).Some?
    ensures FlagAfter(open, lines) == Alternate(open, lines).value
    decreases |lines|
  {
    if lines != [] {
      FlagAlternate(if lines[0].Opening? then true else if lines[0].Closing? then false else open, lines[1..]);
    }
  }

  /** A block sets the flag whatever it was. */
  lemma BlockFlag(open: bool, c: nat, db: nat, q: seq<MultiModel.Cmd>, dirty: int)
    ensures FlagAfter(open, MultiRuns.Block(c, db, q, dirty)) == !MultiRuns.Closes(q, dirty)
  {
    hide MultiRuns.Closes, MultiRuns.Lines, MultiModel.DbAfterAll;
    var block := MultiRuns.Block(c, db, q, dirty);
    BlockAlternate(false, c, db, q, dirty);
    FlagAlternate(false, block);
    assert FlagAfter(open, block) == FlagAfter(true, block[1..]) == FlagAfter(false, block);
  }

  lemma {:induction false} FlagRun(w: MultiModel.World, es: seq<MultiModel.Event>)
    requires MultiRuns.Inv(w) && MultiModel.PossibleRun(w, es)
    ensures FlagAfter(false, MultiModel.Run(w, es).log) == LeftOpen(w, es, FlagAfter(false, w.log))
    decreases |es|
  {
    hide MultiRuns.Inv, MultiModel.Next, MultiModel.Possible, FlagAfter, MultiRuns.Closes;
    if es != [] {
      var e, w' := es[0], MultiModel.Next(w, es[0]);
      MultiRuns.NextKeeps(w, e);
      MultiRuns.NextLog(w, e);
      FlagConcat(false, w.log, MultiRuns.LogOf(w, e));
      EventFlag(w, e, FlagAfter(false, w.log));
      FlagRun(w', es[1..]);
    }
  }

  lemma EventFlag(w: MultiModel.World, e: MultiModel.Event, open: bool)
    ensures FlagAfter(open, MultiRuns.LogOf(w, e)) ==
      if Runs(w, e) then !MultiRuns.Closes(w.conns[e.client].queue, w.dirty) else open
  {
    hide MultiRuns.Closes, MultiRuns.Block;
    if Runs(w, e) {
      BlockFlag(open, e.client, w.conns[e.client].db, w.conns[e.client].queue, w.dirty);
    } else {
      EventAlternate(w, e, open);
      FlagAlternate(open, MultiRuns.LogOf(w, e));
    }
  }

  // ---- from lines to commands -----------------------------------------------------

  /** The bracket a command is, and what it makes of the flag. */
  function Follow(open: bool, cs: seq<Command>): Option<bool>
    decreases |cs|
  {
    if cs == [] then Some(open)
    else if CheckAof.Says(cs[0], MULTI) then if open then None else Follow(true, cs[1..])
    else if CheckAof.Says(cs[0], EXEC) then if open then Follow(false, cs[1..]) else None
    else Follow(open, cs[1..])
  }

  lemma {:induction false} FollowMore(open: bool, cs: seq<Command>, c: Command)
    ensures Follow(open, cs + [c]) ==
      match Follow(open, cs)
      case None => None
      case Some(o) =>
        if CheckAof.Says(c, MULTI) then if o then None else Some(true)
        else if CheckAof.Says(c, EXEC) then if o then Some(false) else None
        else Some(o)
    decreases |cs|
  {
    hide CheckAof.Says;
    if cs == [] {
      assert cs + [c] == [c] && [c][1..] == [];
    } else {
      assert (cs + [c])[1..] == cs[1..] + [c] && (cs + [c])[0] == cs[0];
      FollowMore(true, cs[1..], c);
      FollowMore(false, cs[1..], c);
    }
  }

  lemma {:induction false} BracketsFollow(cs: seq<Command>)
    ensures CheckAof.Brackets(cs) == Follow(false, cs)
    decreases |cs|
  {
    hide CheckAof.Says;
    if cs != [] {
      var init, c := cs[..|cs| - 1], cs[|cs| - 1];
      assert cs == init + [c];
      BracketsFollow(init);
      FollowMore(false, init, c);
    }
  }

  /** Neither a bracket nor a SELECT. */
  predicate Neutral(c: Command) {
    !Control(c) && !CheckAof.Says(c, MULTI) && !CheckAof.Says(c, EXEC)
  }

  lemma {:induction false} FollowNeutral(open: bool, cs: seq<Command>, more: seq<Command>)
    requires forall i :: 0 <= i < |cs| ==> !CheckAof.Says(cs[i], MULTI) && !CheckAof.Says(cs[i], EXEC)
    ensures Follow(open, cs + more) == Follow(open, more)
    decreases |cs|
  {
    hide CheckAof.Says;
    if cs == [] {
      assert cs + more == more;
    } else {
      assert (cs + more)[1..] == cs[1..] + more;
      FollowNeutral(open, cs[1..], more);
    }
  }

  lemma {:induction false} NoNulCString(s: bytes)
    requires 0 !in s
    ensures CString(s) == s
  {
    if s != [] { NoNulCString(s[1..]); }
  }

  lemma NamesCapital()
    ensures Upper(SELECT) == SELECT && Upper(MULTI) == MULTI && Upper(EXEC) == EXEC
    ensures Upper(SET) == SET && Upper(EXPIREAT) == EXPIREAT && Upper(DEL) == DEL
    ensures 0 !in SELECT && 0 !in MULTI && 0 !in EXEC && 0 !in SET && 0 !in EXPIREAT && 0 !in DEL
  {
  }

  /** What a command is depends on its name alone. */
  lemma SaysName(c: Command, name: bytes)
    requires c != [] && 0 !in c[0]
    ensures CheckAof.Says(c, name) <==> Name(c) == name
  {
    NoNulCString(c[0]);
  }

  /** What the lines that are not brackets have in common. */
  lemma LineCommand(dbnum: nat, l: Line)
    requires LineOk(dbnum, l) && !Bracket(l)
    ensures CommandOf(l) != [] && 0 !in CommandOf(l)[0] && !Control(CommandOf(l))
  {
    hide Upper;
    NamesCapital();
  }

  lemma TranslatedNeutral(c: Command, now: int)
    requires c != [] && 0 !in c[0] && !Control(c)
    ensures forall i :: 0 <= i < |AofLog.Translate(c, now)| ==> Neutral(AofLog.Translate(c, now)[i])
  {
    hide Upper, Print, Atol, CheckAof.Says;
    NamesCapital();
    var t := AofLog.Translate(c, now);
    forall i | 0 <= i < |t| ensures Neutral(t[i]) {
      SaysName(t[i], MULTI);
      SaysName(t[i], EXEC);
    }
  }

  lemma {:induction false} TranslatedBracket(now: int)
    ensures AofLog.Translate([MULTI], now) == [[MULTI]] && AofLog.Translate([EXEC], now) == [[EXEC]]
    ensures CheckAof.Says([MULTI], MULTI) && CheckAof.Says([EXEC], EXEC) && !CheckAof.Says([EXEC], MULTI)
  {
    NamesCapital();
    SaysName([MULTI], MULTI);
    SaysName([EXEC], EXEC);
    SaysName([EXEC], MULTI);
  }

  lemma SelectNeutral(db: nat)
    ensures var c := [SELECT, Print(db)];
      !CheckAof.Says(c, MULTI) && !CheckAof.Says(c, EXEC) && Name(c) == SELECT && Atol(c[1]) == db
  {
    hide Print, Atol;
    NamesCapital();
    SaysName([SELECT, Print(db)], MULTI);
    SaysName([SELECT, Print(db)], EXEC);
    AtolPrint(db);
  }

  /** The commands of the first line: a SELECT if it is needed, and the rest. */
  lemma FirstLine(seldb: Option<nat>, lines: seq<Line>, at: seq<Moment>)
    requires |at| == |lines| > 0
    ensures var db := lines[0].db;
      var sel: seq<Command> := if !at[0].1 && seldb == Some(db) then [] else [[SELECT, Print(db)]];
      AofLog.FeedLog(seldb, FedOf(lines, at)) ==
        sel + (AofLog.Translate(CommandOf(lines[0]), at[0].0) +
               AofLog.FeedLog(Some(db), FedOf(lines[1..], at[1..])))
  {
    hide AofLog.Translate, CommandOf, Print;
    assert FedOf(lines, at)[1..] == FedOf(lines[1..], at[1..]);
  }

  /** The brackets of the lines are those of the commands. */
  lemma {:induction false} FollowLog(dbnum: nat, seldb: Option<nat>, lines: seq<Line>, at: seq<Moment>, open: bool)
    requires |at| == |lines| && LinesOk(dbnum, lines)
    ensures Follow(open, AofLog.FeedLog(seldb, FedOf(lines, at))) == Alternate(open, lines)
    decreases |lines|
  {
    hide AofLog.Translate, CheckAof.Says, Control, Print, AofLog.FeedCommands, Name;
    if lines != [] {
      var l, rest := lines[0], AofLog.FeedLog(Some(lines[0].db), FedOf(lines[1..], at[1..]));
      var t := AofLog.Translate(CommandOf(l), at[0].0);
      var sel: seq<Command> := if !at[0].1 && seldb == Some(l.db) then [] else [[SELECT, Print(l.db)]];
      FirstLine(seldb, lines, at);
      SelectNeutral(l.db);
      FollowNeutral(open, sel, t + rest);
      assert LineOk(dbnum, l);
      FollowLog(dbnum, Some(l.db), lines[1..], at[1..], true);
      FollowLog(dbnum, Some(l.db), lines[1..], at[1..], false);
      if !Bracket(l) {
        LineCommand(dbnum, l);
        TranslatedNeutral(CommandOf(l), at[0].0);
        FollowNeutral(open, t, rest);
      } else {
        TranslatedBracket(at[0].0);
        assert (t + rest)[0] == CommandOf(l) && (t + rest)[1..] == rest;
      }
    }
  }

  // ---- loading ---------------------------------------------------------------------

  /** Performing the commands that act on data, each on its database. */
  function Effects(apply: Effect, data: Dataset, cs: seq<(nat, Command)>): Dataset
    decreases |cs|
  {
    if cs == [] then data
    else Effects(apply, if Control(cs[0].1) then data else Perform(apply, data, cs[0].0, cs[0].1), cs[1..])
  }

  /** Every SELECT has a database that exists. */
  predicate SelectsOk(dbnum: nat, cs: seq<Command>) {
    forall i :: 0 <= i < |cs| && Name(cs[i]) == SELECT ==> |cs[i]| == 2 && 0 <= Atol(cs[i][1]) < dbnum
  }

  lemma {:induction false} ReplayAttributed(apply: Effect, dbnum: nat, s: State, cs: seq<Command>)
    requires SelectsOk(dbnum, cs)
    ensures Replay(apply, dbnum, s, cs).data == Effects(apply, s.data, AofLog.Attributed(s.db, cs))
    decreases |cs|
  {
    hide Perform, Name, Atol;
    if cs != [] {
      var s' := Step(apply, dbnum, s, cs[0]);
      assert SelectsOk(dbnum, cs[1..]);
      ReplayAttributed(apply, dbnum, s', cs[1..]);
      var more := AofLog.Attributed(s.db, cs[1..]);
      if Name(cs[0]) != SELECT {
        assert ([(s.db, cs[0])] + more)[1..] == more;
      }
    }
  }

  lemma {:induction false} ReplayFlag(apply: Effect, dbnum: nat, s: State, cs: seq<Command>, more: seq<Command>)
    requires forall i :: 0 <= i < |cs| ==> Name(cs[i]) != MULTI && Name(cs[i]) != EXEC
    ensures Replay(apply, dbnum, s, cs + more).multi ==
      Replay(apply, dbnum, Replay(apply, dbnum, s, cs), more).multi && Replay(apply, dbnum, s, cs).multi == s.multi
    decreases |cs|
  {
    hide Perform, Name, Atol;
    ReplayConcat(apply, dbnum, s, cs, more);
    if cs != [] { ReplayFlag(apply, dbnum, Step(apply, dbnum, s, cs[0]), cs[1..], more); }
  }

  lemma {:induction false} FlagLog(
      apply: Effect, dbnum: nat, s: State, seldb: Option<nat>, lines: seq<Line>, at: seq<Moment>)
    requires |at| == |lines| && LinesOk(dbnum, lines)
    ensures Replay(apply, dbnum, s, AofLog.FeedLog(seldb, FedOf(lines, at))).multi == FlagAfter(s.multi, lines)
    decreases |lines|
  {
    hide AofLog.Translate, Print, AofLog.FeedCommands, Perform, Atol, Upper, CheckAof.Says;
    if lines != [] {
      var l, rest := lines[0], AofLog.FeedLog(Some(lines[0].db), FedOf(lines[1..], at[1..]));
      var t := AofLog.Translate(CommandOf(l), at[0].0);
      var sel: seq<Command> := if !at[0].1 && seldb == Some(l.db) then [] else [[SELECT, Print(l.db)]];
      FirstLine(seldb, lines, at);
      SelectNeutral(l.db);
      NamesCapital();
      assert LineOk(dbnum, l);
      ReplayFlag(apply, dbnum, s, sel, t + rest);
      var s1 := Replay(apply, dbnum, s, sel);
      if !Bracket(l) {
        LineCommand(dbnum, l);
        TranslatedNeutral(CommandOf(l), at[0].0);
        ReplayFlag(apply, dbnum, s1, t, rest);
        FlagLog(apply, dbnum, Replay(apply, dbnum, s1, t), Some(l.db), lines[1..], at[1..]);
      } else {
        TranslatedBracket(at[0].0);
        assert (t + rest)[0] == CommandOf(l) && (t + rest)[1..] == rest;
        FlagLog(apply, dbnum, Step(apply, dbnum, s1, CommandOf(l)), Some(l.db), lines[1..], at[1..]);
      }
    }
  }

  lemma {:induction false} SelectsLog(dbnum: nat, seldb: Option<nat>, lines: seq<Line>, at: seq<Moment>)
    requires |at| == |lines| && LinesOk(dbnum, lines)
    ensures SelectsOk(dbnum, AofLog.FeedLog(seldb, FedOf(lines, at)))
    decreases |lines|
  {
    hide AofLog.Translate, Print, AofLog.FeedCommands, Atol, Upper, CheckAof.Says;
    if lines != [] {
      var l := lines[0];
      var t := AofLog.Translate(CommandOf(l), at[0].0);
      var sel: seq<Command> := if !at[0].1 && seldb == Some(l.db) then [] else [[SELECT, Print(l.db)]];
      FirstLine(seldb, lines, at);
      SelectNeutral(l.db);
      NamesCapital();
      assert LineOk(dbnum, l);
      if !Bracket(l) {
        LineCommand(dbnum, l);
        TranslatedNeutral(CommandOf(l), at[0].0);
      } else {
        TranslatedBracket(at[0].0);
      }
      SelectsLog(dbnum, Some(l.db), lines[1..], at[1..]);
      SelectsMore(dbnum, sel, t, AofLog.FeedLog(Some(l.db), FedOf(lines[1..], at[1..])));
    }
  }

  lemma SelectsMore(dbnum: nat, sel: seq<Command>, t: seq<Command>, rest: seq<Command>)
    requires SelectsOk(dbnum, sel) && SelectsOk(dbnum, rest)
    requires forall i :: 0 <= i < |t| ==> Name(t[i]) != SELECT
    ensures SelectsOk(dbnum, sel + (t + rest))
  {
    hide Name, Atol;
  }

  // ---- both readers ------------------------------------------------------------------

  /** redis-check-aof accepts the whole of an encoded list exactly when its brackets
      match. */
  lemma WholeSound(cs: seq<Command>)
    requires forall i :: 0 <= i < |cs| ==> CheckAof.Plain(cs[i])
    ensures CheckAof.Sound(EncodeAll(cs), |EncodeAll(cs)|) <==> CheckAof.Brackets(cs) == Some(false)
  {
    hide CheckAof.Turn, CheckAof.Brackets, CheckAof.Plain, EncodeCommand;
    var s, n := EncodeAll(cs), |cs|;
    assert s + [] == s;
    CheckAof.AfterEncoded(cs, []);
    if CheckAof.Sound(s, |s|) {
      var k: nat :| CheckAof.After(s, k) == Some((|s|, false));
      if k > n {
        NoFurther(s, n, k);
      } else if k < n {
        var a, b := cs[..k], cs[k..];
        assert a + b == cs;
        EncodeAllConcat(a, b);
        CheckAof.AfterEncoded(a, EncodeAll(b));
        assert false;
      }
    }
  }

  lemma NoFurther(s: bytes, n: nat, k: nat)
    requires CheckAof.After(s, n).Some? ==> CheckAof.After(s, n).value.0 == |s|
    requires k > n
    ensures CheckAof.After(s, k) == None
  {
    hide CheckAof.Turn;
    CheckAof.NoneStays(s, n + 1, k);
  }

  lemma {:induction false} FedNames(dbnum: nat, lines: seq<Line>, at: seq<Moment>)
    requires |at| == |lines| && LinesOk(dbnum, lines)
    ensures forall i :: 0 <= i < |FedOf(lines, at)| ==> Name(FedOf(lines, at)[i].cmd) != SELECT
    decreases |lines|
  {
    hide Upper;
    if lines != [] {
      NamesCapital();
      assert LineOk(dbnum, lines[0]);
      if !Bracket(lines[0]) { LineCommand(dbnum, lines[0]); }
      FedNames(dbnum, lines[1..], at[1..]);
    }
  }

  /** The bytes of the lines, as the loader sees them. */
  lemma LinesLoad(apply: Effect, dbnum: nat, lines: seq<Line>, at: seq<Moment>)
    requires |at| == |lines| && LinesOk(dbnum, lines) && AllLoadable(LogOf(lines, at))
    ensures var file, fed := EncodeAll(LogOf(lines, at)), AofLog.Intended(FedOf(lines, at));
      && Decode(file) == Ok(LogOf(lines, at))
      && AofLog.Attributed(0, LogOf(lines, at)) == fed
      && Load(apply, dbnum, file) ==
           (if FlagAfter(false, lines) then Err(ReadErr) else Ok(Effects(apply, map[], fed)))
  {
    hide AofLog.Attributed, Decode, AofLog.Intended, AofLog.FeedLog, Effects, Replay, LineOk, Name, EncodeAll,
      FlagAfter, Load, Loadable;
    var cs := LogOf(lines, at);
    FedNames(dbnum, lines, at);
    AofLog.LogFaithful(None, 0, FedOf(lines, at));
    FlagLog(apply, dbnum, START, None, lines, at);
    SelectsLog(dbnum, None, lines, at);
    ReplayAttributed(apply, dbnum, START, cs);
    DecodeEncoded(cs);
    LoadEncoded(apply, dbnum, cs);
  }

  /**
  The append only file of any run of clients, whatever the times at which it was fed
  and however often the selected database was forgotten in between. Following its
  SELECTs gives exactly the commands that were fed, in order and each with its
  database. It loads if and only if the last transaction that ran is not left open,
  and then to what these commands make of an empty server. redis-check-aof finds the
  whole of it sound if and only if no transaction was left open.
  */
  lemma {:induction false} ClientsLogged(
      apply: Effect, dbnum: nat, es: seq<MultiModel.Event>, at: seq<Moment>)
    requires MultiModel.PossibleRun(MultiModel.IDLE, es)
    requires var lines := MultiModel.Run(MultiModel.IDLE, es).log;
      && |at| == |lines| && LinesOk(dbnum, lines)
      && forall i :: 0 <= i < |LogOf(lines, at)| ==> CheckAof.Plain(LogOf(lines, at)[i])
    ensures var lines := MultiModel.Run(MultiModel.IDLE, es).log;
      var file, fed := EncodeAll(LogOf(lines, at)), AofLog.Intended(FedOf(lines, at));
      && Decode(file) == Ok(LogOf(lines, at))
      && AofLog.Attributed(0, LogOf(lines, at)) == fed
      && Load(apply, dbnum, file) ==
           (if LeftOpen(MultiModel.IDLE, es, false) then Err(ReadErr) else Ok(Effects(apply, map[], fed)))
      && (CheckAof.Sound(file, |file|) <==> MultiRuns.AllClose(MultiModel.IDLE, es))
  {
    hide MultiModel.Next, MultiModel.Possible, AofLog.FeedLog, AofLog.Attributed, Decode, Load, LineOk, CheckAof.Sound,
      CheckAof.Brackets, Effects, AofLog.Intended, LeftOpen, MultiRuns.AllClose, MultiRuns.Inv, Alternate, Follow,
      EncodeAll, FlagAfter, MultiRuns.Read, FedOf, Loadable;
    var lines := MultiModel.Run(MultiModel.IDLE, es).log;
    var cs := LogOf(lines, at);
    IdleFacts();
    LinesLoad(apply, dbnum, lines, at);
    FlagRun(MultiModel.IDLE, es);
    WholeSound(cs);
    BracketsFollow(cs);
    FollowLog(dbnum, None, lines, at, false);
    AlternateRun(MultiModel.IDLE, es);
    MultiRuns.LogBalanced(MultiModel.IDLE, es);
  }

  lemma IdleFacts()
    ensures MultiRuns.Inv(MultiModel.IDLE) && MultiModel.IDLE.log == []
    ensures Alternate(false, []) == Some(false) && MultiRuns.Read(None, []) == Some(None) && !FlagAfter(false, [])
  {
    WatchIndex.TellsFirst();
  }
}
