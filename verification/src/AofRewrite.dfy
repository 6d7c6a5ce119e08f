/**
rewriteAppendOnlyFile (aof.c:404-650): a log that rebuilds a snapshot. The
snapshot is given in the order in which the dictionaries are iterated.
*/
module AofRewrite {
  import opened Common
  import opened Decimal
  import opened Resp
  import opened AofCodec
  import opened AofReplay

  /** A value in iteration order. Scores are kept as the text they are printed as. */
  datatype Shape =
    | ShStr(text: bytes) | ShList(items: seq<bytes>) | ShSet(members: seq<bytes>)
    | ShZSet(pairs: seq<(bytes, bytes)>) | ShHash(pairs: seq<(bytes, bytes)>)

  /** A key of a database with its value and deadline. */
  datatype Item = Item(key: bytes, shape: Shape, expire: Option<int>)

  /** One list of items per database. */
  type Dump = seq<seq<Item>>

  function ToMap(pairs: seq<(bytes, bytes)>): map<bytes, bytes> {
    if pairs == [] then map[]
    else
      var last := pairs[|pairs| - 1];
      ToMap(pairs[..|pairs| - 1])[last.0 := last.1]
  }

  function ToSet(s: seq<bytes>): set<bytes> {
    set x | x in s
  }

  /** The number of commands that rebuild the value. */
  function Count(sh: Shape): nat {
    match sh
    case ShStr(_) => 1
    case ShList(items) => |items|
    case ShSet(members) => |members|
    case ShZSet(pairs) => |pairs|
    case ShHash(pairs) => |pairs|
  }

  /** The value after the first `n` of them. */
  function Partial(sh: Shape, n: nat): Value
    requires 0 < n <= Count(sh)
  {
    match sh
    case ShStr(text) => Str(text)
    case ShList(items) => List(items[..n])
    case ShSet(members) => Set(ToSet(members[..n]))
    case ShZSet(pairs) => ZSet(ToMap(pairs[..n]))
    case ShHash(pairs) => Hash(ToMap(pairs[..n]))
  }

  function Whole(sh: Shape): Value
    requires Count(sh) > 0
  {
    Partial(sh, Count(sh))
  }

  /** The `i`-th command: SET, RPUSH, SADD, ZADD or HSET. */
  function Element(key: bytes, sh: Shape, i: nat): Command
    requires i < Count(sh)
  {
    match sh
    case ShStr(text) => [SET, key, text]
    case ShList(items) => [RPUSH, key, items[i]]
    case ShSet(members) => [SADD, key, members[i]]
    case ShZSet(pairs) => [ZADD, key, pairs[i].1, pairs[i].0]
    case ShHash(pairs) => [HSET, key, pairs[i].0, pairs[i].1]
  }

  function Elements(key: bytes, sh: Shape, n: nat): (cs: seq<Command>)
    requires n <= Count(sh)
    ensures |cs| == n
  {
    if n == 0 then [] else Elements(key, sh, n - 1) + [Element(key, sh, n - 1)]
  }

  /** The deadline, unless it has passed (aof.c:616-623). */
  function Deadline(item: Item, now: int): seq<Command> {
    if item.expire == None || item.expire.value < now then []
    else [[EXPIREAT, item.key, Print(item.expire.value)]]
  }

  function ItemCommands(item: Item, now: int): seq<Command> {
    Elements(item.key, item.shape, Count(item.shape)) + Deadline(item, now)
  }

  function ItemsCommands(items: seq<Item>, now: int): seq<Command> {
    if items == [] then []
    else ItemsCommands(items[..|items| - 1], now) + ItemCommands(items[|items| - 1], now)
  }

  /** The commands for database `j`; an empty one is skipped. */
  function DbCommands(j: nat, items: seq<Item>, now: int): seq<Command> {
    if items == [] then [] else [[SELECT, Print(j)]] + ItemsCommands(items, now)
  }

  function RewriteCommands(dump: Dump, now: int): seq<Command> {
    if dump == [] then []
    else RewriteCommands(dump[..|dump| - 1], now) + DbCommands(|dump| - 1, dump[|dump| - 1], now)
  }

  // ---- the data a dump stands for -----------------------------------------

  /** Keys are distinct within a database and no aggregate is empty. */
  ghost predicate ItemsOk(items: seq<Item>) {
    && (forall i :: 0 <= i < |items| ==> Count(items[i].shape) > 0)
    && (forall i, j :: 0 <= i < j < |items| ==> items[i].key != items[j].key)
  }

  ghost predicate DumpOk(dump: Dump) {
    forall j :: 0 <= j < |dump| ==> ItemsOk(dump[j])
  }

  /** What remains of a deadline after the rewrite at `now`. */
  function Kept(expire: Option<int>, now: int): Option<int> {
    if expire.Some? && expire.value < now then None else expire
  }

  function ItemsData(db: nat, items: seq<Item>): (d: Dataset)
    requires forall i :: 0 <= i < |items| ==> Count(items[i].shape) > 0
    ensures forall k :: k in d ==> k.0 == db && exists i :: 0 <= i < |items| && items[i].key == k.1
  {
    if items == [] then map[]
    else
      var last := items[|items| - 1];
      ItemsData(db, items[..|items| - 1])[(db, last.key) := Entry(Whole(last.shape), last.expire)]
  }

  function DumpData(dump: Dump): (d: Dataset)
    requires DumpOk(dump)
    ensures forall k :: k in d ==> k.0 < |dump|
  {
    if dump == [] then map[]
    else DumpData(dump[..|dump| - 1]) + ItemsData(|dump| - 1, dump[|dump| - 1])
  }

  const NO_ENTRY: Entry := Entry(Str([]), None)

  /** The data without the deadlines that had passed at `now`. */
  function Unexpired(d: Dataset, now: int): Dataset {
    map k | k in d :: if k in d then Entry(d[k].value, Kept(d[k].expire, now)) else NO_ENTRY
  }

  // ---- replaying the rewrite ----------------------------------------------

  /** The commands a rewrite uses are written in capitals, and act on the data. */
  lemma DataCommand(c: Command)
    requires c != []
    requires c[0] == SET || c[0] == RPUSH || c[0] == SADD || c[0] == ZADD || c[0] == HSET || c[0] == EXPIREAT
    ensures Name(c) == c[0] && !Control(c)
  {
    assert Upper(c[0]) == c[0];
  }

  lemma ToMapStep(pairs: seq<(bytes, bytes)>, n: nat)
    requires n < |pairs|
    ensures ToMap(pairs[..n + 1]) == ToMap(pairs[..n])[pairs[n].0 := pairs[n].1]
    ensures ToMap(pairs[..0]) == map[]
  {
    assert pairs[..n + 1][..n] == pairs[..n];
  }

  /** The `n`-th command of a value extends what the earlier ones built. */
  lemma ElementStep(apply: Effect, dbnum: nat, s: State, key: bytes, sh: Shape, n: nat)
    requires n < Count(sh)
    requires n == 0 ==> (s.db, key) !in s.data
    requires n > 0 ==> (s.db, key) in s.data && s.data[(s.db, key)] == Entry(Partial(sh, n), None)
    ensures Step(apply, dbnum, s, Element(key, sh, n)) ==
      s.(data := s.data[(s.db, key) := Entry(Partial(sh, n + 1), None)])
  {
    DataCommand(Element(key, sh, n));
    hide Upper;
    match sh
    case ShStr(_) =>
    case ShList(items) =>
      assert items[..n + 1] == items[..n] + [items[n]];
      if n == 0 { assert items[..1] == [items[0]]; }
    case ShSet(members) =>
      assert members[..n + 1] == members[..n] + [members[n]];
      assert ToSet(members[..n + 1]) == ToSet(members[..n]) + {members[n]};
      if n == 0 { assert ToSet(members[..1]) == {members[0]}; }
    case ShZSet(pairs) => ToMapStep(pairs, n);
    case ShHash(pairs) => ToMapStep(pairs, n);
  }

  /** All commands of a value, from a state without the key. */
  lemma {:induction false} ElementsReplay(apply: Effect, dbnum: nat, s: State, key: bytes, sh: Shape, n: nat)
    requires n <= Count(sh) && (s.db, key) !in s.data
    ensures Replay(apply, dbnum, s, Elements(key, sh, n)) ==
      if n == 0 then s else s.(data := s.data[(s.db, key) := Entry(Partial(sh, n), None)])
  {
    hide Step, Partial, Element;
    if n > 0 {
      ElementsReplay(apply, dbnum, s, key, sh, n - 1);
      var cs, c := Elements(key, sh, n - 1), Element(key, sh, n - 1);
      ReplayConcat(apply, dbnum, s, cs, [c]);
      var s1 := Replay(apply, dbnum, s, cs);
      ReplayOne(apply, dbnum, s1, c);
      ElementStep(apply, dbnum, s1, key, sh, n - 1);
      assert s1.data[(s.db, key) := Entry(Partial(sh, n), None)] == s.data[(s.db, key) := Entry(Partial(sh, n), None)];
    }
  }

  lemma DeadlineReplay(apply: Effect, dbnum: nat, s: State, item: Item, now: int)
    requires (s.db, item.key) in s.data && s.data[(s.db, item.key)].expire == None
    ensures var k := (s.db, item.key);
            Replay(apply, dbnum, s, Deadline(item, now)) ==
            s.(data := s.data[k := s.data[k].(expire := Kept(item.expire, now))])
  {
    var k := (s.db, item.key);
    if item.expire == None || item.expire.value < now {
      assert s.data[k := s.data[k].(expire := None)] == s.data;
    } else {
      var c := [EXPIREAT, item.key, Print(item.expire.value)];
      ReplayOne(apply, dbnum, s, c);
      DataCommand(c);
      AtolPrint(item.expire.value);
      hide Upper;
    }
  }

  /** One item adds its key with the value and what is kept of the deadline. */
  lemma ItemReplay(apply: Effect, dbnum: nat, s: State, item: Item, now: int)
    requires Count(item.shape) > 0 && (s.db, item.key) !in s.data
    ensures Replay(apply, dbnum, s, ItemCommands(item, now)) ==
      s.(data := s.data[(s.db, item.key) := Entry(Whole(item.shape), Kept(item.expire, now))])
  {
    var k := (s.db, item.key);
    var cs := Elements(item.key, item.shape, Count(item.shape));
    ReplayConcat(apply, dbnum, s, cs, Deadline(item, now));
    ElementsReplay(apply, dbnum, s, item.key, item.shape, Count(item.shape));
    var s1 := Replay(apply, dbnum, s, cs);
    DeadlineReplay(apply, dbnum, s1, item, now);
    assert s1.data[k := Entry(Whole(item.shape), Kept(item.expire, now))] ==
           s.data[k := Entry(Whole(item.shape), Kept(item.expire, now))];
  }

  lemma UnexpiredAdd(a: Dataset, b: Dataset, k: Key, e: Entry, now: int)
    ensures (a + Unexpired(b, now))[k := Entry(e.value, Kept(e.expire, now))] == a + Unexpired(b[k := e], now)
  {
  }

  /** All items of a database, into data that has none of its keys. */
  lemma {:induction false} ItemsReplay(apply: Effect, dbnum: nat, s: State, items: seq<Item>, now: int)
    requires ItemsOk(items) && forall k :: k in s.data ==> k.0 != s.db
    ensures Replay(apply, dbnum, s, ItemsCommands(items, now)) ==
      s.(data := s.data + Unexpired(ItemsData(s.db, items), now))
  {
    hide Step, ItemCommands, Whole, Kept;
    if items == [] {
      assert s.data + Unexpired(map[], now) == s.data;
    } else {
      var init, last := items[..|items| - 1], items[|items| - 1];
      ItemsReplay(apply, dbnum, s, init, now);
      ReplayConcat(apply, dbnum, s, ItemsCommands(init, now), ItemCommands(last, now));
      var s1 := Replay(apply, dbnum, s, ItemsCommands(init, now));
      assert (s.db, last.key) !in ItemsData(s.db, init);
      ItemReplay(apply, dbnum, s1, last, now);
      UnexpiredAdd(s.data, ItemsData(s.db, init), (s.db, last.key), Entry(Whole(last.shape), last.expire), now);
    }
  }

  lemma SelectReplay(apply: Effect, dbnum: nat, s: State, j: nat)
    requires j < dbnum
    ensures Step(apply, dbnum, s, [SELECT, Print(j)]) == s.(db := j)
  {
    AtolPrint(j);
    assert Upper(SELECT) == SELECT;
  }

  lemma UnexpiredUnion(a: Dataset, b: Dataset, now: int)
    ensures Unexpired(a, now) + Unexpired(b, now) == Unexpired(a + b, now)
  {
  }

  /** The database selected after a rewrite matters to nobody, because the next
      command in the log is a SELECT; the data and the MULTI flag do. */
  lemma {:induction false} DumpReplay(apply: Effect, dbnum: nat, dump: Dump, now: int)
    requires DumpOk(dump) && |dump| <= dbnum
    ensures var r := Replay(apply, dbnum, START, RewriteCommands(dump, now));
            r.data == Unexpired(DumpData(dump), now) && !r.multi
  {
    hide Step, ItemsCommands, Kept, ItemsData;
    if dump == [] {
      assert Unexpired(map[], now) == map[];
    } else {
      var j := |dump| - 1;
      var init, items := dump[..j], dump[j];
      DumpReplay(apply, dbnum, init, now);
      ReplayConcat(apply, dbnum, START, RewriteCommands(init, now), DbCommands(j, items, now));
      var s := Replay(apply, dbnum, START, RewriteCommands(init, now));
      UnexpiredUnion(DumpData(init), ItemsData(j, items), now);
      if items == [] {
        NoItems(j);
        assert DumpData(init) + map[] == DumpData(init);
      } else {
        ReplayConcat(apply, dbnum, s, [[SELECT, Print(j)]], ItemsCommands(items, now));
        ReplayOne(apply, dbnum, s, [SELECT, Print(j)]);
        SelectReplay(apply, dbnum, s, j);
        ItemsReplay(apply, dbnum, s.(db := j), items, now);
      }
    }
  }

  lemma NoItems(j: nat)
    ensures ItemsData(j, []) == map[]
  {
  }

  /**
  A rewrite loads to the snapshot without the deadlines that had passed. So it
  loads to the snapshot itself exactly when no key is past its deadline: the
  test at aof.c:619 skips the EXPIREAT of such a key, but its value has been
  written by then, and the key comes back for good.
  */
  lemma {:induction false} RewriteLoads(apply: Effect, dbnum: nat, dump: Dump, now: int)
    requires DumpOk(dump) && |dump| <= dbnum && AllLoadable(RewriteCommands(dump, now))
    ensures Load(apply, dbnum, EncodeAll(RewriteCommands(dump, now))) == Ok(Unexpired(DumpData(dump), now))
    ensures Load(apply, dbnum, EncodeAll(RewriteCommands(dump, now))) == Ok(DumpData(dump)) <==>
            forall k :: k in DumpData(dump) ==> Kept(DumpData(dump)[k].expire, now) == DumpData(dump)[k].expire
  {
    LoadEncoded(apply, dbnum, RewriteCommands(dump, now));
    DumpReplay(apply, dbnum, dump, now);
    var d := DumpData(dump);
    if forall k :: k in d ==> Kept(d[k].expire, now) == d[k].expire {
      assert Unexpired(d, now) == d;
    } else {
      var k :| k in d && Kept(d[k].expire, now) != d[k].expire;
      assert Unexpired(d, now)[k] != d[k];
    }
  }

  /** One key whose deadline was second 1. */
  const PASSED: Dump := [[Item([107], ShStr([118]), Some(1))]]

  /** Rewritten at second 2, it comes back without a deadline. */
  lemma {:induction false} RewriteRevives(apply: Effect, dbnum: nat)
    requires dbnum > 0
    ensures DumpOk(PASSED) && AllLoadable(RewriteCommands(PASSED, 2))
    ensures DumpData(PASSED) == map[(0, [107]) := Entry(Str([118]), Some(1))]
    ensures Load(apply, dbnum, EncodeAll(RewriteCommands(PASSED, 2))) == Ok(map[(0, [107]) := Entry(Str([118]), None)])
  {
    var k: Key, item := (0, [107]), Item([107], ShStr([118]), Some(1));
    assert PASSED[..0] == [] && [item][..0] == [];
    PassedLoadable();
    assert ItemsData(0, [item]) == map[k := Entry(Str([118]), Some(1))];
    assert DumpData(PASSED) == map[k := Entry(Str([118]), Some(1))];
    RewriteLoads(apply, dbnum, PASSED, 2);
    assert Unexpired(DumpData(PASSED), 2) == map[k := Entry(Str([118]), None)];
  }

  lemma PassedLoadable()
    ensures AllLoadable(RewriteCommands(PASSED, 2))
  {
    var item := Item([107], ShStr([118]), Some(1));
    assert PASSED[..0] == [] && [item][..0] == [];
    assert Elements([107], ShStr([118]), 0) == [];
    assert ItemCommands(item, 2) == [[SET, [107], [118]]];
    assert ItemsCommands([item], 2) == [[SET, [107], [118]]];
    assert DbCommands(0, [item], 2) == [[SELECT, Print(0)], [SET, [107], [118]]];
    assert RewriteCommands(PASSED, 2) == [[SELECT, Print(0)], [SET, [107], [118]]];
    assert |Print(0)| == 1;
  }
}
