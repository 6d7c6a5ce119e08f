/**
Keys with deadlines (db.c, redis.c:481-523) on a master that is not loading. A key
past its deadline is removed when a lookup meets it, or when the expire cycle
happens to draw it. The view of a database at a time is what it would hold if keys
vanished the moment their deadline passes.
*/
module KeyspaceModel {
  import opened Common

  /** An entry of `dict`: its key object and its value. Key objects are numbered. */
  datatype Slot = Slot(sds: nat, value: bytes)

  /** An entry of `expires`. */
  datatype Deadline = Deadline(sds: nat, at: int)

  datatype Db = Db(dict: map<bytes, Slot>, expires: map<bytes, Deadline>, next: nat)

  const EMPTY_DB: Db := Db(map[], map[], 0)

  /** `expires` holds only keys of `dict`, under the same key object; different
      keys have different objects; and deadlines are times. */
  predicate Sane(db: Db) {
    && (forall k :: k in db.expires ==> k in db.dict && db.expires[k].sds == db.dict[k].sds && db.expires[k].at >= 0)
    && (forall k :: k in db.dict ==> db.dict[k].sds < db.next)
    && (forall k, l :: k in db.dict && l in db.dict && k != l ==> db.dict[k].sds != db.dict[l].sds)
  }

  datatype Entry = Entry(value: bytes, at: Option<int>)
  type View = map<bytes, Entry>

  /** Past its deadline and still there. */
  predicate Stale(db: Db, k: bytes, now: int) {
    k in db.dict && k in db.expires && db.expires[k].at < now
  }

  const NO_ENTRY: Entry := Entry([], None)

  /** What there is to see of a key. */
  function EntryOf(db: Db, k: bytes, now: int): Entry {
    if k in db.dict && !Stale(db, k, now) then
      Entry(db.dict[k].value, if k in db.expires then Some(db.expires[k].at) else None)
    else NO_ENTRY
  }

  function ViewOf(db: Db, now: int): View {
    map k | k in db.dict && !Stale(db, k, now) :: EntryOf(db, k, now)
  }

  predicate Living(v: View, k: bytes, now: int) {
    k in v && (v[k].at == None || v[k].at.value >= now)
  }

  /** What is left of a view when time has moved on. */
  function Alive(v: View, now: int): View {
    map k | k in v && Living(v, k, now) :: if Living(v, k, now) then v[k] else NO_ENTRY
  }

  // ---- the functions of db.c ------------------------------------------------

  function DbAdd(db: Db, k: bytes, value: bytes): Db {
    db.(dict := db.dict[k := Slot(db.next, value)], next := db.next + 1)
  }

  function DbOverwrite(db: Db, k: bytes, value: bytes): Db
    requires k in db.dict
  {
    db.(dict := db.dict[k := db.dict[k].(value := value)])
  }

  function DbDelete(db: Db, k: bytes): Db {
    db.(dict := db.dict - {k}, expires := db.expires - {k})
  }

  /** dictReplace keeps the key object of an entry that is there. */
  function SetExpire(db: Db, k: bytes, at: int): Db
    requires k in db.dict
  {
    db.(expires := db.expires[k := if k in db.expires then db.expires[k].(at := at) else Deadline(db.dict[k].sds, at)])
  }

  function RemoveExpire(db: Db, k: bytes): Db {
    db.(expires := db.expires - {k})
  }

  /** getExpire, -1 for none. */
  function GetExpire(db: Db, k: bytes): int {
    if k in db.expires then db.expires[k].at else -1
  }

  function ExpireIfNeeded(db: Db, k: bytes, now: int): Db {
    if GetExpire(db, k) < 0 || now <= GetExpire(db, k) then db else DbDelete(db, k)
  }

  function Lookup(db: Db, k: bytes): Option<bytes> {
    if k in db.dict then Some(db.dict[k].value) else None
  }

  function SetKey(db: Db, k: bytes, value: bytes, now: int): Db {
    var db1 := ExpireIfNeeded(db, k, now);
    RemoveExpire(if Lookup(db1, k) == None then DbAdd(db1, k, value) else DbOverwrite(db1, k, value), k)
  }

  datatype Reply = Nil | Bulk(value: bytes) | Num(n: int) | Done | Refused

  /** renameGenericCommand. */
  function RenameKey(db: Db, src: bytes, dst: bytes, nx: bool, now: int): (Db, Reply) {
    if src == dst then (db, Refused)
    else
      var db1 := ExpireIfNeeded(db, src, now);
      if Lookup(db1, src) == None then (db1, Refused)
      else
        var value, at := Lookup(db1, src).value, GetExpire(db1, src);
        var db2 := ExpireIfNeeded(db1, dst, now);
        if Lookup(db2, dst) != None && nx then (db2, Num(0))
        else
          var db3 := if Lookup(db2, dst) != None then DbDelete(db2, dst) else db2;
          var db4 := DbAdd(db3, dst, value);
          var db5 := if at != -1 then SetExpire(db4, dst, at) else db4;
          (DbDelete(db5, src), if nx then Num(1) else Done)
  }

  /** expireGenericCommand: it does not look whether the deadline has passed. */
  function ExpireKey(db: Db, k: bytes, seconds: int, now: int): (Db, Reply) {
    if k !in db.dict then (db, Num(0))
    else if seconds <= 0 then (DbDelete(db, k), Num(1))
    else (SetExpire(db, k, now + seconds), Num(1))
  }

  function PersistKey(db: Db, k: bytes): (Db, Reply) {
    if k !in db.dict then (db, Num(0))
    else (RemoveExpire(db, k), Num(if k in db.expires then 1 else 0))
  }

  function DelKey(db: Db, k: bytes): (Db, Reply) {
    (DbDelete(db, k), Num(if k in db.dict then 1 else 0))
  }

  /** ttlCommand; like EXPIRE it does not look whether the deadline has passed. */
  function TtlKey(db: Db, k: bytes, now: int): Reply {
    var ttl := if GetExpire(db, k) != -1 then GetExpire(db, k) - now else -1;
    Num(if ttl < 0 then -1 else ttl)
  }

  /** The expire cycle on the keys it has drawn. */
  function Cycle(db: Db, drawn: seq<bytes>, now: int): Db
    decreases |drawn|
  {
    if drawn == [] then db
    else
      var db1 := if drawn[0] in db.expires && now > db.expires[drawn[0]].at then DbDelete(db, drawn[0]) else db;
      Cycle(db1, drawn[1..], now)
  }

  datatype Op =
    | Get(key: bytes) | Exists(key: bytes) | Set(key: bytes, value: bytes) | Del(key: bytes)
    | Rename(src: bytes, dst: bytes, nx: bool) | Expire(key: bytes, seconds: int) | Persist(key: bytes)
    | Ttl(key: bytes) | Size | Sample(drawn: seq<bytes>) | Flush

  function Perform(db: Db, op: Op, now: int): (Db, Reply) {
    match op
    case Get(k) =>
      var db1 := ExpireIfNeeded(db, k, now);
      (db1, if Lookup(db1, k) == None then Nil else Bulk(Lookup(db1, k).value))
    case Exists(k) =>
      var db1 := ExpireIfNeeded(db, k, now);
      (db1, Num(if k in db1.dict then 1 else 0))
    case Set(k, v) => (SetKey(db, k, v, now), Done)
    case Del(k) => DelKey(db, k)
    case Rename(src, dst, nx) => RenameKey(db, src, dst, nx, now)
    case Expire(k, s) => ExpireKey(db, k, s, now)
    case Persist(k) => PersistKey(db, k)
    case Ttl(k) => (db, TtlKey(db, k, now))
    case Size => (db, Num(|db.dict|))
    case Sample(drawn) => (Cycle(db, drawn, now), Done)
    case Flush => (Db(map[], map[], db.next), Done)
  }

  // ---- keys that vanish in time ---------------------------------------------

  /** The same operations where keys vanish at their deadlines. */
  function Ideal(v: View, op: Op, now: int): (View, Reply) {
    match op
    case Get(k) => (v, if k in v then Bulk(v[k].value) else Nil)
    case Exists(k) => (v, Num(if k in v then 1 else 0))
    case Set(k, x) => (v[k := Entry(x, None)], Done)
    case Del(k) => (v - {k}, Num(if k in v then 1 else 0))
    case Rename(src, dst, nx) =>
      if src == dst || src !in v then (v, Refused)
      else if dst in v && nx then (v, Num(0))
      else ((v - {src})[dst := v[src]], if nx then Num(1) else Done)
    case Expire(k, s) =>
      if k !in v then (v, Num(0))
      else if s <= 0 then (v - {k}, Num(1))
      else (v[k := v[k].(at := Some(now + s))], Num(1))
    case Persist(k) =>
      if k !in v then (v, Num(0))
      else (v[k := v[k].(at := None)], Num(if v[k].at.Some? then 1 else 0))
    case Ttl(k) => (v, Num(if k in v && v[k].at.Some? then v[k].at.value - now else -1))
    case Size => (v, Num(|v|))
    case Sample(_) => (v, Done)
    case Flush => (map[], Done)
  }

  function StaleKeys(db: Db, now: int): set<bytes> {
    set k | k in db.dict && Stale(db, k, now)
  }

  /** The operation does not look whether a deadline has passed, and hits a key that
      is past its own and still there: DEL, EXPIRE and PERSIST of such a key, DBSIZE
      while there is one. */
  predicate Unlucky(db: Db, op: Op, now: int) {
    || ((op.Del? || op.Expire? || op.Persist?) && Stale(db, op.key, now))
    || (op.Size? && StaleKeys(db, now) != {})
  }

  // ---- proofs ---------------------------------------------------------------

  lemma ExpireKeeps(db: Db, k: bytes, now: int)
    requires Sane(db)
    ensures var r := ExpireIfNeeded(db, k, now);
      Sane(r) && ViewOf(r, now) == ViewOf(db, now) && !Stale(r, k, now) && (k in r.dict <==> k in ViewOf(db, now))
    ensures forall l :: l != k ==> (Stale(ExpireIfNeeded(db, k, now), l, now) <==> Stale(db, l, now))
  {
  }

  lemma LookupView(db: Db, k: bytes, now: int)
    requires !Stale(db, k, now)
    ensures k in db.dict <==> k in ViewOf(db, now)
    ensures k in db.dict ==> ViewOf(db, now)[k].value == db.dict[k].value
    ensures k in db.dict ==> ViewOf(db, now)[k].at == if k in db.expires then Some(db.expires[k].at) else None
  {
  }

  lemma DeleteKeeps(db: Db, k: bytes, now: int)
    requires Sane(db)
    ensures Sane(DbDelete(db, k)) && ViewOf(DbDelete(db, k), now) == ViewOf(db, now) - {k}
    ensures k !in DbDelete(db, k).dict
    ensures forall l :: l != k ==> (Stale(DbDelete(db, k), l, now) <==> Stale(db, l, now))
  {
  }

  lemma {:induction false} AddKeeps(db: Db, k: bytes, value: bytes, now: int)
    requires Sane(db) && k !in db.dict
    ensures Sane(DbAdd(db, k, value)) && ViewOf(DbAdd(db, k, value), now) == ViewOf(db, now)[k := Entry(value, None)]
  {
    AddSane(db, k, value);
    NoDeadline(db, k);
    hide Sane;
  }

  lemma AddSane(db: Db, k: bytes, value: bytes)
    requires Sane(db) && k !in db.dict
    ensures Sane(DbAdd(db, k, value))
  {
  }

  lemma OverwriteKeeps(db: Db, k: bytes, value: bytes)
    requires Sane(db) && k in db.dict
    ensures Sane(DbOverwrite(db, k, value))
  {
  }

  lemma SetExpireKeeps(db: Db, k: bytes, at: int, now: int)
    requires Sane(db) && k in db.dict && at >= 0 && at >= now
    ensures Sane(SetExpire(db, k, at))
    ensures ViewOf(SetExpire(db, k, at), now) == ViewOf(db, now)[k := Entry(db.dict[k].value, Some(at))]
  {
    SetExpireSane(db, k, at);
    hide Sane;
  }

  lemma SetExpireSane(db: Db, k: bytes, at: int)
    requires Sane(db) && k in db.dict && at >= 0
    ensures Sane(SetExpire(db, k, at))
  {
  }

  lemma RemoveExpireKeeps(db: Db, k: bytes, now: int)
    requires Sane(db) && k in db.dict
    ensures Sane(RemoveExpire(db, k))
    ensures ViewOf(RemoveExpire(db, k), now) == ViewOf(db, now)[k := Entry(db.dict[k].value, None)]
  {
    RemoveExpireSane(db, k);
    hide Sane;
  }

  lemma RemoveExpireSane(db: Db, k: bytes)
    requires Sane(db)
    ensures Sane(RemoveExpire(db, k))
  {
  }

  lemma RemoveExpireNone(db: Db, k: bytes, now: int)
    requires Sane(db) && k !in db.expires
    ensures RemoveExpire(db, k) == db
  {
  }

  lemma {:induction false} SetKeyKeeps(db: Db, k: bytes, value: bytes, now: int)
    requires Sane(db)
    ensures Sane(SetKey(db, k, value, now))
    ensures ViewOf(SetKey(db, k, value, now), now) == ViewOf(db, now)[k := Entry(value, None)]
  {
    hide ViewOf, Sane, Stale;
    ExpireKeeps(db, k, now);
    var db1 := ExpireIfNeeded(db, k, now);
    hide ExpireIfNeeded;
    if Lookup(db1, k) == None {
      AddKeeps(db1, k, value, now);
      NoDeadline(db1, k);
      RemoveExpireNone(DbAdd(db1, k, value), k, now);
    } else {
      var db2 := DbOverwrite(db1, k, value);
      OverwriteKeeps(db1, k, value);
      RemoveExpireKeeps(db2, k, now);
      OverwriteView(db1, k, value, now);
    }
  }

  lemma NoDeadline(db: Db, k: bytes)
    requires Sane(db) && k !in db.dict
    ensures k !in db.expires
  {
  }

  lemma OverwriteView(db: Db, k: bytes, value: bytes, now: int)
    requires Sane(db) && k in db.dict
    ensures ViewOf(DbOverwrite(db, k, value), now)[k := Entry(value, None)] == ViewOf(db, now)[k := Entry(value, None)]
  {
  }

  /** A key past its deadline can go unseen. */
  lemma StaleUnseen(db: Db, k: bytes, now: int)
    requires Sane(db) && k in db.expires && now > db.expires[k].at
    ensures Sane(DbDelete(db, k)) && ViewOf(DbDelete(db, k), now) == ViewOf(db, now)
  {
    DeleteKeeps(db, k, now);
    hide DbDelete;
    assert k !in ViewOf(db, now);
    assert ViewOf(db, now) - {k} == ViewOf(db, now);
  }

  lemma {:induction false} CycleKeeps(db: Db, drawn: seq<bytes>, now: int)
    requires Sane(db)
    ensures Sane(Cycle(db, drawn, now)) && ViewOf(Cycle(db, drawn, now), now) == ViewOf(db, now)
    decreases |drawn|
  {
    hide Sane, ViewOf, DbDelete;
    if drawn != [] {
      if drawn[0] in db.expires && now > db.expires[drawn[0]].at {
        StaleUnseen(db, drawn[0], now);
        CycleKeeps(DbDelete(db, drawn[0]), drawn[1..], now);
      } else {
        CycleKeeps(db, drawn[1..], now);
      }
    }
  }

  /** The keys past their deadlines among those drawn. */
  function Gone(db: Db, drawn: seq<bytes>, now: int): set<bytes> {
    set k | k in drawn && k in db.expires && db.expires[k].at < now
  }

  /** Exactly the keys drawn whose deadlines have passed are removed, from both tables. */
  lemma {:induction false} CycleExact(db: Db, drawn: seq<bytes>, now: int)
    ensures var gone := Gone(db, drawn, now);
      Cycle(db, drawn, now) == db.(dict := db.dict - gone, expires := db.expires - gone)
    decreases |drawn|
  {
    var gone := Gone(db, drawn, now);
    if drawn == [] {
      assert db.dict - gone == db.dict && db.expires - gone == db.expires;
    } else {
      var k, rest := drawn[0], drawn[1..];
      assert forall l :: l in drawn <==> l == k || l in rest;
      if k in db.expires && now > db.expires[k].at {
        var db1 := DbDelete(db, k);
        CycleExact(db1, rest, now);
        assert gone == {k} + Gone(db1, rest, now);
        assert db1.dict - Gone(db1, rest, now) == db.dict - gone;
        assert db1.expires - Gone(db1, rest, now) == db.expires - gone;
      } else {
        CycleExact(db, rest, now);
        assert gone == Gone(db, rest, now);
      }
    }
  }

  lemma {:induction false} CycleMore(db: Db, drawn: seq<bytes>, k: bytes, now: int)
    ensures var r := Cycle(db, drawn, now);
      Cycle(db, drawn + [k], now) == if k in r.expires && now > r.expires[k].at then DbDelete(r, k) else r
    decreases |drawn|
  {
    hide DbDelete;
    var all := drawn + [k];
    if drawn == [] {
      assert all[1..] == [];
    } else {
      assert all[1..] == drawn[1..] + [k] && all[0] == drawn[0];
      var k0 := drawn[0];
      CycleMore(if k0 in db.expires && now > db.expires[k0].at then DbDelete(db, k0) else db, drawn[1..], k, now);
    }
  }

  lemma RenameKeeps(db: Db, src: bytes, dst: bytes, nx: bool, now: int)
    requires Sane(db)
    ensures var (r, reply) := RenameKey(db, src, dst, nx, now);
      Sane(r) && (ViewOf(r, now), reply) == Ideal(ViewOf(db, now), Op.Rename(src, dst, nx), now)
  {
    hide ViewOf, Sane, Stale, ExpireIfNeeded, DbDelete, DbAdd, SetExpire;
    if src != dst {
      ExpireKeeps(db, src, now);
      var db1 := ExpireIfNeeded(db, src, now);
      LookupView(db1, src, now);
      if Lookup(db1, src) != None {
        DeadlineOk(db1, src, now);
        ExpireKeeps(db1, dst, now);
        var db2 := ExpireIfNeeded(db1, dst, now);
        LookupView(db2, dst, now);
        if !(Lookup(db2, dst) != None && nx) {
          RenameEnd(db2, src, dst, Lookup(db1, src).value, GetExpire(db1, src), now);
        }
      }
    }
  }

  lemma DeadlineOk(db: Db, k: bytes, now: int)
    requires Sane(db) && !Stale(db, k, now)
    ensures GetExpire(db, k) == -1 <==> k !in db.expires
    ensures k in db.expires ==> GetExpire(db, k) >= 0 && GetExpire(db, k) >= now
  {
  }

  /** From the deletion of the target on. */
  lemma {:induction false} RenameEnd(db: Db, src: bytes, dst: bytes, value: bytes, at: int, now: int)
    requires Sane(db) && src != dst && src in ViewOf(db, now)
    requires ViewOf(db, now)[src] == Entry(value, if at == -1 then None else Some(at))
    requires at != -1 ==> at >= 0 && at >= now
    ensures var db3 := if Lookup(db, dst) != None then DbDelete(db, dst) else db;
      var db4 := DbAdd(db3, dst, value);
      dst in db4.dict
      && var db5 := if at != -1 then SetExpire(db4, dst, at) else db4;
      var r := DbDelete(db5, src);
      Sane(r) && ViewOf(r, now) == (ViewOf(db, now) - {src})[dst := ViewOf(db, now)[src]]
  {
    hide ViewOf, Sane, Stale, SetExpire, DbAdd, DbDelete;
    var v := ViewOf(db, now);
    DeleteKeeps(db, dst, now);
    var db3 := if Lookup(db, dst) != None then DbDelete(db, dst) else db;
    NotThere(db, dst, now);
    AddKeeps(db3, dst, value, now);
    var db4 := DbAdd(db3, dst, value);
    AddedSlot(db3, dst, value);
    if at != -1 { SetExpireKeeps(db4, dst, at, now); }
    var db5 := if at != -1 then SetExpire(db4, dst, at) else db4;
    DeleteKeeps(db5, src, now);
    Renamed(v, src, dst, value);
  }

  lemma Renamed(v: View, src: bytes, dst: bytes, value: bytes)
    requires src != dst && src in v
    ensures (v - {dst})[dst := v[src]] - {src} == (v - {src})[dst := v[src]]
    ensures (v - {dst})[dst := Entry(value, None)][dst := v[src]] - {src} == (v - {src})[dst := v[src]]
  {
  }

  lemma AddedSlot(db: Db, k: bytes, value: bytes)
    ensures k in DbAdd(db, k, value).dict && DbAdd(db, k, value).dict[k].value == value
  {
  }

  lemma NotThere(db: Db, k: bytes, now: int)
    ensures k !in db.dict ==> ViewOf(db, now) - {k} == ViewOf(db, now)
  {
  }

  lemma ExpireRefines(db: Db, k: bytes, s: int, now: int)
    requires Sane(db) && now >= 0
    ensures var (r, reply) := ExpireKey(db, k, s, now);
      && Sane(r)
      && (reply == Ideal(ViewOf(db, now), Op.Expire(k, s), now).1 <==> !Stale(db, k, now))
      && (ViewOf(r, now) == Ideal(ViewOf(db, now), Op.Expire(k, s), now).0 || Stale(db, k, now))
  {
    hide Sane;
    DeleteKeeps(db, k, now);
    if k in db.dict && s > 0 { SetExpireKeeps(db, k, now + s, now); }
    if !Stale(db, k, now) { LookupView(db, k, now); }
  }

  lemma PersistRefines(db: Db, k: bytes, now: int)
    requires Sane(db)
    ensures var (r, reply) := PersistKey(db, k);
      && Sane(r)
      && (reply == Ideal(ViewOf(db, now), Op.Persist(k), now).1 <==> !Stale(db, k, now))
      && (ViewOf(r, now) == Ideal(ViewOf(db, now), Op.Persist(k), now).0 || Stale(db, k, now))
  {
    hide Sane;
    if k in db.dict { RemoveExpireKeeps(db, k, now); }
    if !Stale(db, k, now) { LookupView(db, k, now); }
  }

  lemma DelRefines(db: Db, k: bytes, now: int)
    requires Sane(db)
    ensures var (r, reply) := DelKey(db, k);
      && Sane(r)
      && (reply == Ideal(ViewOf(db, now), Op.Del(k), now).1 <==> !Stale(db, k, now))
      && (ViewOf(r, now) == Ideal(ViewOf(db, now), Op.Del(k), now).0 || Stale(db, k, now))
  {
    hide Sane;
    DeleteKeeps(db, k, now);
    if !Stale(db, k, now) { LookupView(db, k, now); }
  }

  /** moveCommand between two databases. */
  function Move(src: Db, dst: Db, k: bytes, now: int): (Db, Db, Reply) {
    var src1 := ExpireIfNeeded(src, k, now);
    if Lookup(src1, k) == None then (src1, dst, Num(0))
    else
      var dst1 := ExpireIfNeeded(dst, k, now);
      if Lookup(dst1, k) != None then (src1, dst1, Num(0))
      else (DbDelete(src1, k), DbAdd(dst1, k, Lookup(src1, k).value), Num(1))
  }

  /** A key that is moved keeps its value and loses its deadline. */
  lemma {:induction false} MoveRefines(src: Db, dst: Db, k: bytes, now: int)
    requires Sane(src) && Sane(dst)
    ensures var (s, d, reply) := Move(src, dst, k, now);
      var v, w := ViewOf(src, now), ViewOf(dst, now);
      && Sane(s) && Sane(d)
      && if k !in v || k in w then ViewOf(s, now) == v && ViewOf(d, now) == w && reply == Num(0)
         else ViewOf(s, now) == v - {k} && ViewOf(d, now) == w[k := Entry(v[k].value, None)] && reply == Num(1)
  {
    hide Sane, ViewOf, Stale, ExpireIfNeeded, DbDelete, DbAdd;
    ExpireKeeps(src, k, now);
    var src1 := ExpireIfNeeded(src, k, now);
    LookupView(src1, k, now);
    if Lookup(src1, k) != None {
      ExpireKeeps(dst, k, now);
      var dst1 := ExpireIfNeeded(dst, k, now);
      LookupView(dst1, k, now);
      if Lookup(dst1, k) == None {
        DeleteKeeps(src1, k, now);
        AddKeeps(dst1, k, Lookup(src1, k).value, now);
      }
    }
  }

  /** TTL answers as if the key were gone. */
  lemma TtlRefines(db: Db, k: bytes, now: int)
    requires Sane(db) && now >= 0
    ensures TtlKey(db, k, now) == Ideal(ViewOf(db, now), Op.Ttl(k), now).1
  {
  }

  /** DBSIZE counts the keys past their deadlines. */
  lemma {:induction false} SizeRefines(db: Db, now: int)
    ensures |db.dict| == |ViewOf(db, now)| + |StaleKeys(db, now)|
  {
    var v, stale := ViewOf(db, now), StaleKeys(db, now);
    assert db.dict.Keys == v.Keys + stale && v.Keys !! stale;
  }

  /**
  Every operation answers, and leaves the database looking, as if keys vanished
  at their deadlines, whichever of them are still stored; except DEL, EXPIRE and
  PERSIST on a key that is past its deadline and still stored, and DBSIZE while
  there is such a key, which never answer so.
  */
  lemma Refines(db: Db, op: Op, now: int)
    requires Sane(db) && now >= 0
    ensures var (r, reply) := Perform(db, op, now);
      && Sane(r)
      && (reply == Ideal(ViewOf(db, now), op, now).1 <==> !Unlucky(db, op, now))
      && (ViewOf(r, now) == Ideal(ViewOf(db, now), op, now).0 || Unlucky(db, op, now))
  {
    hide Sane, ViewOf, Stale, SetKey, RenameKey, ExpireKey, PersistKey, DelKey, TtlKey, Cycle, ExpireIfNeeded,
      StaleKeys;
    match op
    case Get(k) => ExpireKeeps(db, k, now); LookupView(ExpireIfNeeded(db, k, now), k, now);
    case Exists(k) => ExpireKeeps(db, k, now);
    case Set(k, v) => SetKeyKeeps(db, k, v, now);
    case Del(k) => DelRefines(db, k, now);
    case Rename(src, dst, nx) => RenameKeeps(db, src, dst, nx, now);
    case Expire(k, s) => ExpireRefines(db, k, s, now);
    case Persist(k) => PersistRefines(db, k, now);
    case Ttl(k) => TtlRefines(db, k, now);
    case Size => SizeRefines(db, now);
    case Sample(drawn) => CycleKeeps(db, drawn, now);
    case Flush => FlushKeeps(db, now);
  }

  lemma FlushKeeps(db: Db, now: int)
    requires Sane(db)
    ensures Sane(Db(map[], map[], db.next)) && ViewOf(Db(map[], map[], db.next), now) == map[]
  {
  }
}
