/**
What a log of commands rebuilds when it is replayed (aof.c:308-388). The loader
calls command procedures directly, so nothing is queued between MULTI and EXEC;
these two only set and clear the client's flag, which must be clear at the end.
Commands outside the list below act through `apply`, about which nothing is
assumed but that it is a function of the data, the database and the command.
*/
module AofReplay {
  import opened Common
  import opened Decimal
  import opened Resp
  import opened AofCodec

  datatype Value =
    | Str(text: bytes) | List(items: seq<bytes>) | Set(members: set<bytes>)
    | ZSet(scores: map<bytes, bytes>) | Hash(fields: map<bytes, bytes>)

  /** A value and its deadline, if any. */
  datatype Entry = Entry(value: Value, expire: Option<int>)

  type Key = (nat, bytes)
  type Dataset = map<Key, Entry>
  type Effect = (Dataset, nat, Command) -> Dataset

  const SELECT: bytes := [83, 69, 76, 69, 67, 84]
  const MULTI: bytes := [77, 85, 76, 84, 73]
  const EXEC: bytes := [69, 88, 69, 67]
  const SET: bytes := [83, 69, 84]
  const DEL: bytes := [68, 69, 76]
  const EXPIREAT: bytes := [69, 88, 80, 73, 82, 69, 65, 84]
  const RPUSH: bytes := [82, 80, 85, 83, 72]
  const SADD: bytes := [83, 65, 68, 68]
  const ZADD: bytes := [90, 65, 68, 68]
  const HSET: bytes := [72, 83, 69, 84]

  /** Command names are looked up without regard to case. */
  function Upper(s: bytes): (r: bytes)
    ensures |r| == |s|
  {
    seq(|s|, i requires 0 <= i < |s| => if 97 <= s[i] <= 122 then s[i] - 32 else s[i])
  }

  function Name(c: Command): bytes {
    if c == [] then [] else Upper(c[0])
  }

  /** The commands that act on the connection rather than on the data. */
  predicate Control(c: Command) {
    Name(c) == SELECT || Name(c) == MULTI || Name(c) == EXEC
  }

  function Put(data: Dataset, k: Key, v: Value): Dataset {
    data[k := Entry(v, if k in data then data[k].expire else None)]
  }

  /** The effect of a data command while loading: nothing expires then, and a
      deadline in the past is set like any other (db.c:542-567). */
  function Perform(apply: Effect, data: Dataset, db: nat, c: Command): Dataset {
    if c == [] then data
    else
      var name := Name(c);
      var k: Key := if |c| > 1 then (db, c[1]) else (db, []);
      if name == SET && |c| == 3 then data[k := Entry(Str(c[2]), None)]
      else if name == DEL && |c| == 2 then data - {k}
      else if name == EXPIREAT && |c| == 3 then
        if k in data then data[k := data[k].(expire := Some(Atol(c[2])))] else data
      else if name == RPUSH && |c| == 3 then
        if k !in data then Put(data, k, List([c[2]]))
        else if data[k].value.List? then Put(data, k, List(data[k].value.items + [c[2]]))
        else data
      else if name == SADD && |c| == 3 then
        if k !in data then Put(data, k, Set({c[2]}))
        else if data[k].value.Set? then Put(data, k, Set(data[k].value.members + {c[2]}))
        else data
      else if name == ZADD && |c| == 4 then
        if k !in data then Put(data, k, ZSet(map[c[3] := c[2]]))
        else if data[k].value.ZSet? then Put(data, k, ZSet(data[k].value.scores[c[3] := c[2]]))
        else data
      else if name == HSET && |c| == 4 then
        if k !in data then Put(data, k, Hash(map[c[2] := c[3]]))
        else if data[k].value.Hash? then Put(data, k, Hash(data[k].value.fields[c[2] := c[3]]))
        else data
      else apply(data, db, c)
  }

  /** The loader's fake client and the data: the database selected, the data, and
      whether a MULTI is open. */
  datatype State = State(db: nat, data: Dataset, multi: bool)

  const START: State := State(0, map[], false)

  function Step(apply: Effect, dbnum: nat, s: State, c: Command): State {
    if Name(c) == SELECT then
      if |c| == 2 && 0 <= Atol(c[1]) < dbnum then s.(db := Atol(c[1])) else s
    else if Name(c) == MULTI then s.(multi := true)
    else if Name(c) == EXEC then s.(multi := false)
    else s.(data := Perform(apply, s.data, s.db, c))
  }

  function Replay(apply: Effect, dbnum: nat, s: State, cs: seq<Command>): State
    decreases |cs|
  {
    if cs == [] then s else Replay(apply, dbnum, Step(apply, dbnum, s, cs[0]), cs[1..])
  }

  /** loadAppendOnlyFile: the data, or the error that ends the process. */
  function Load(apply: Effect, dbnum: nat, file: bytes): Result<Dataset, LoadError> {
    match Decode(file)
    case Err(e) => Err(e)
    case Ok(cs) =>
      var s := Replay(apply, dbnum, START, cs);
      if s.multi then Err(ReadErr) else Ok(s.data)
  }

  lemma {:induction false} ReplayConcat(apply: Effect, dbnum: nat, s: State, a: seq<Command>, b: seq<Command>)
    ensures Replay(apply, dbnum, s, a + b) == Replay(apply, dbnum, Replay(apply, dbnum, s, a), b)
    decreases |a|
  {
    if a == [] {
      assert a + b == b;
    } else {
      assert (a + b)[1..] == a[1..] + b;
      ReplayConcat(apply, dbnum, Step(apply, dbnum, s, a[0]), a[1..], b);
    }
  }

  lemma ReplayOne(apply: Effect, dbnum: nat, s: State, c: Command)
    ensures Replay(apply, dbnum, s, [c]) == Step(apply, dbnum, s, c)
  {
    assert [c][1..] == [];
  }

  /** The file of a list of commands loads to what replaying them rebuilds. */
  lemma {:induction false} LoadEncoded(apply: Effect, dbnum: nat, cs: seq<Command>)
    requires AllLoadable(cs)
    ensures var s := Replay(apply, dbnum, START, cs);
            Load(apply, dbnum, EncodeAll(cs)) == if s.multi then Err(ReadErr) else Ok(s.data)
  {
    DecodeEncoded(cs);
  }

  /**
  loadAppendOnlyFile reads and executes command by command. An error ends the
  process, so what was executed before it is not observed.
  */
  method LoadAppendOnlyFile(apply: Effect, dbnum: nat, file: bytes) returns (r: Result<Dataset, LoadError>)
    ensures r == Load(apply, dbnum, file)
  {
    hide Decode, DecodeCommand, Step, Prepend;
    var pos, fake := 0, START;
    ghost var done: seq<Command> := [];
    assert file[0..] == file;
    PrependNothing(Decode(file));
    while pos < |file|
      invariant 0 <= pos <= |file|
      invariant fake == Replay(apply, dbnum, START, done)
      invariant Decode(file) == Prepend(done, Decode(file[pos..]))
      decreases |file| - pos
    {
      DecodeStep(file, pos, done);
      var d := DecodeCommand(file[pos..]);
      if d.Err? {
        return Err(d.error);
      }
      var (c, rest) := d.value;
      pos := |file| - |rest|;
      ReplayConcat(apply, dbnum, START, done, [c]);
      ReplayOne(apply, dbnum, fake, c);
      fake := Step(apply, dbnum, fake, c);
      done := done + [c];
    }
    DecodeEnd(file, pos, done);
    if fake.multi {
      return Err(ReadErr);
    }
    return Ok(fake.data);
  }

  /** One turn of the loop: an error is the result, or a command moves over. */
  lemma DecodeStep(file: bytes, pos: nat, done: seq<Command>)
    requires pos < |file|
    ensures match DecodeCommand(file[pos..])
            case Err(e) => Prepend(done, Decode(file[pos..])) == Err(e)
            case Ok((c, rest)) =>
              && |rest| < |file| - pos
              && Prepend(done, Decode(file[pos..])) == Prepend(done + [c], Decode(file[|file| - |rest|..]))
  {
    var s := file[pos..];
    if DecodeCommand(s).Ok? {
      var (c, rest) := DecodeCommand(s).value;
      RestIsSuffix(s);
      assert s[|s| - |rest|..] == file[|file| - |rest|..];
      PrependMore(done, c, Decode(rest));
    }
  }

  lemma DecodeEnd(file: bytes, pos: nat, done: seq<Command>)
    requires pos == |file|
    ensures Prepend(done, Decode(file[pos..])) == Ok(done)
  {
    assert file[pos..] == [] && done + [] == done;
  }

  lemma PrependNothing(r: Result<seq<Command>, LoadError>)
    ensures Prepend([], r) == r
  {
    if r.Ok? { assert [] + r.value == r.value; }
  }

  ghost function Prepend(cs: seq<Command>, r: Result<seq<Command>, LoadError>): Result<seq<Command>, LoadError> {
    match r
    case Err(e) => Err(e)
    case Ok(more) => Ok(cs + more)
  }

  lemma PrependMore(cs: seq<Command>, c: Command, r: Result<seq<Command>, LoadError>)
    ensures Prepend(cs, Prepend([c], r)) == Prepend(cs + [c], r)
  {
    if r.Ok? { assert cs + ([c] + r.value) == cs + [c] + r.value; }
  }

  /** What follows a decoded command is the end of the file. */
  lemma {:induction false} ArgsRest(s: bytes, argc: nat)
    requires DecodeArgs(s, argc).Ok?
    ensures var rest := DecodeArgs(s, argc).value.1; |rest| <= |s| && rest == s[|s| - |rest|..]
    decreases argc
  {
    hide DecodeArg;
    if argc > 0 {
      var (a, s1) := DecodeArg(s).value;
      ArgRest(s);
      ArgsRest(s1, argc - 1);
      var rest := DecodeArgs(s, argc).value.1;
      assert s1[|s1| - |rest|..] == s[|s| - |rest|..];
    }
  }

  lemma ArgRest(s: bytes)
    requires DecodeArg(s).Ok?
    ensures var rest := DecodeArg(s).value.1; |rest| < |s| && rest == s[|s| - |rest|..]
  {
    hide LineLength, Atol;
  }

  lemma RestIsSuffix(s: bytes)
    requires s != [] && DecodeCommand(s).Ok?
    ensures var rest := DecodeCommand(s).value.1; |rest| < |s| && rest == s[|s| - |rest|..]
  {
    var n := LineLength(s, FGETS_MAX);
    ArgsRest(s[n..], Atol(s[1..n]));
  }
}
