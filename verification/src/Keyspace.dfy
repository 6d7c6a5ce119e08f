/** db.c and the expire cycle of redis.c on the two tables of a database. */
module Keyspace {
  import opened Common
  import opened KeyspaceModel
  import KeyspaceRuns

  const LOOKUPS_PER_CRON: nat := 10

  class RedisDb {
    var dict: map<bytes, Slot>
    var expires: map<bytes, Deadline>
    var next: nat
    ghost var propagated: seq<bytes>    // the keys for which a DEL was fed

    ghost function Now(): Db
      reads this
    {
      Db(dict, expires, next)
    }

    constructor ()
      ensures Now() == EMPTY_DB && propagated == []
    {
      dict, expires, next, propagated := map[], map[], 0, [];
    }

    /** dbAdd; the key must not be there (redisAssert at db.c:82). */
    method Add(k: bytes, value: bytes)
      requires k !in dict
      modifies this`dict, this`next
      ensures Now() == DbAdd(old(Now()), k, value)
    {
      dict := dict[k := Slot(next, value)];
      next := next + 1;
    }

    /** dbOverwrite; the key must be there (db.c:93). */
    method Overwrite(k: bytes, value: bytes)
      requires k in dict
      modifies this`dict
      ensures Now() == DbOverwrite(old(Now()), k, value)
    {
      dict := dict[k := dict[k].(value := value)];
    }

    /** dbDelete. */
    method Delete(k: bytes) returns (deleted: bool)
      modifies this`dict, this`expires
      ensures Now() == DbDelete(old(Now()), k) && deleted == (k in old(dict))
    {
      if |expires| > 0 {
        expires := expires - {k};
      }
      assert expires == old(expires) - {k};
      deleted := k in dict;
      dict := dict - {k};
    }

    /** setExpire. */
    method SetExpire(k: bytes, at: int)
      requires k in dict
      modifies this`expires
      ensures Now() == KeyspaceModel.SetExpire(old(Now()), k, at)
    {
      if k in expires {
        expires := expires[k := expires[k].(at := at)];
      } else {
        expires := expires[k := Deadline(dict[k].sds, at)];
      }
    }

    /** removeExpire; the key must be there (db.c:444). */
    method RemoveExpire(k: bytes) returns (had: bool)
      requires k in dict
      modifies this`expires
      ensures Now() == KeyspaceModel.RemoveExpire(old(Now()), k) && had == (k in old(expires))
    {
      had := k in expires;
      expires := expires - {k};
    }

    /** getExpire. */
    method GetExpire(k: bytes) returns (at: int)
      requires Sane(Now())
      ensures at == KeyspaceModel.GetExpire(Now(), k)
    {
      if |expires| == 0 || k !in expires {
        return -1;
      }
      return expires[k].at;
    }

    /** expireIfNeeded: what it removes, it propagates first. */
    method ExpireIfNeeded(k: bytes, now: int) returns (expired: bool)
      requires Sane(Now())
      modifies this`dict, this`expires, this`propagated
      ensures Now() == KeyspaceModel.ExpireIfNeeded(old(Now()), k, now)
      ensures expired == Stale(old(Now()), k, now)
      ensures propagated == old(propagated) + if expired then [k] else []
    {
      var when := GetExpire(k);
      if when < 0 {
        return false;
      }
      if now <= when {
        return false;
      }
      propagated := propagated + [k];
      expired := Delete(k);
    }

    /** lookupKeyRead and lookupKeyWrite. */
    method LookupKey(k: bytes, now: int) returns (r: Option<bytes>)
      requires Sane(Now())
      modifies this`dict, this`expires, this`propagated
      ensures Now() == KeyspaceModel.ExpireIfNeeded(old(Now()), k, now) && Sane(Now())
      ensures r == Lookup(Now(), k)
      ensures r == if k in ViewOf(old(Now()), now) then Some(ViewOf(old(Now()), now)[k].value) else None
      ensures propagated == old(propagated) + if Stale(old(Now()), k, now) then [k] else []
    {
      ExpireKeeps(Now(), k, now);
      var _ := ExpireIfNeeded(k, now);
      LookupView(Now(), k, now);
      r := if k in dict then Some(dict[k].value) else None;
    }

    /** setKey. */
    method SetKey(k: bytes, value: bytes, now: int)
      requires Sane(Now())
      modifies this
      ensures Now() == KeyspaceModel.SetKey(old(Now()), k, value, now) && Sane(Now())
      ensures propagated == old(propagated) + if Stale(old(Now()), k, now) then [k] else []
    {
      SetKeyKeeps(Now(), k, value, now);
      var found := LookupKey(k, now);
      if found == None {
        Add(k, value);
      } else {
        Overwrite(k, value);
      }
      var _ := RemoveExpire(k);
    }

    /** The end of renameGenericCommand (db.c:377-379): the value goes to its new key,
        with the deadline it had. */
    method MoveEntry(src: bytes, dst: bytes, value: bytes, at: int)
      requires dst !in dict
      modifies this`dict, this`expires, this`next
      ensures var db := DbAdd(old(Now()), dst, value);
        Now() == DbDelete(if at != -1 then KeyspaceModel.SetExpire(db, dst, at) else db, src)
    {
      Add(dst, value);
      if at != -1 {
        SetExpire(dst, at);
      }
      var _ := Delete(src);
    }

    /** renameGenericCommand. Two keys are looked up, the second only if the first is
        there, and those past their deadlines are propagated. */
    method Rename(src: bytes, dst: bytes, nx: bool, now: int) returns (reply: Reply)
      requires Sane(Now())
      modifies this
      ensures (Now(), reply) == KeyspaceModel.RenameKey(old(Now()), src, dst, nx, now) && Sane(Now())
      ensures propagated == old(propagated) +
                if src == dst then []
                else if Stale(old(Now()), src, now) then [src]
                else if InView(old(Now()), src, now) && Stale(old(Now()), dst, now) then [dst] else []
    {
      hide Sane, ViewOf, Stale, InView;
      StaleApart(Now(), src, now);
      RenameKeeps(Now(), src, dst, nx, now);
      if src == dst {
        return Refused;
      }
      var o := LookupKey(src, now);
      if o == None {
        return Refused;
      }
      var at := GetExpire(src);
      var found := LookupKey(dst, now);
      if found != None {
        if nx {
          return Num(0);
        }
        var _ := Delete(dst);
      }
      MoveEntry(src, dst, o.value, at);
      reply := if nx then Num(1) else Done;
    }

    /** expireGenericCommand; an absolute deadline is given less the time. */
    method ExpireCommand(k: bytes, seconds: int, now: int) returns (reply: Reply)
      requires Sane(Now()) && now >= 0
      modifies this`dict, this`expires
      ensures (Now(), reply) == KeyspaceModel.ExpireKey(old(Now()), k, seconds, now) && Sane(Now())
    {
      ExpireRefines(Now(), k, seconds, now);
      if k !in dict {
        return Num(0);
      }
      if seconds <= 0 {
        var _ := Delete(k);
      } else {
        SetExpire(k, now + seconds);
      }
      reply := Num(1);
    }

    /** persistCommand. */
    method PersistCommand(k: bytes) returns (reply: Reply)
      requires Sane(Now())
      modifies this`expires
      ensures (Now(), reply) == KeyspaceModel.PersistKey(old(Now()), k) && Sane(Now())
    {
      PersistRefines(Now(), k, 0);
      if k !in dict {
        return Num(0);
      }
      var had := RemoveExpire(k);
      reply := Num(if had then 1 else 0);
    }

    /** ttlCommand: -1 for a key without a deadline, and for one past it. */
    method TtlCommand(k: bytes, now: int) returns (reply: Reply)
      requires Sane(Now()) && now >= 0
      ensures reply == TtlKey(Now(), k, now)
      ensures var v := ViewOf(Now(), now);
        reply == Num(if k in v && v[k].at.Some? then v[k].at.value - now else -1)
    {
      TtlRefines(Now(), k, now);
      var ttl := -1;
      var expire := GetExpire(k);
      if expire != -1 {
        ttl := expire - now;
        if ttl < 0 {
          ttl := -1;
        }
      }
      reply := Num(ttl);
    }

    /** The keys drawn in one turn of activeExpireCycle, each at random. */
    method Draw(lookups: nat, now: int, ghost db0: Db, ghost p0: seq<bytes>)
      returns (expired: nat, ghost drawn: seq<bytes>)
      requires Sane(Now()) && Swept(db0, Now(), p0, propagated, now) && lookups <= |expires|
      modifies this`dict, this`expires, this`propagated
      ensures Sane(Now()) && Swept(db0, Now(), p0, propagated, now)
      ensures |expires| + expired == |old(expires)|
      ensures |drawn| == lookups && AllPresent(old(Now()), drawn, now) && Now() == Cycle(old(Now()), drawn, now)
    {
      hide Sane, Swept, Cycle, AllPresent;
      expired, drawn := 0, [];
      var num := lookups;
      NoneDrawn(Now(), now);
      while num > 0
        invariant Sane(Now()) && Swept(db0, Now(), p0, propagated, now)
        invariant |expires| + expired == |old(expires)| && expired <= |drawn| == lookups - num
        invariant AllPresent(old(Now()), drawn, now) && Now() == Cycle(old(Now()), drawn, now)
      {
        num := num - 1;
        if |expires| == 0 {
          break;
        }
        SomeKey(expires);
        var key :| key in expires;
        var t := expires[key].at;
        OneDrawn(old(Now()), drawn, key, now);
        drawn := drawn + [key];
        if now > t {
          SweepOne(db0, Now(), p0, propagated, key, now);
          Fewer(expires, key);
          propagated := propagated + [key];
          var _ := Delete(key);
          expired := expired + 1;
        }
      }
    }

    /**
    activeExpireCycle for one database: ten keys are drawn at a time, at random,
    and again as long as more than a quarter of them had expired or until the time
    is up, which is looked at every 256 turns. It ends, it removes exactly the keys
    drawn whose deadlines have passed, which changes nothing that can be seen, and
    propagates each of them once. The clock shows `now` throughout.
    */
    method ActiveExpire(now: int, limit: nat) returns (ghost turns: seq<seq<bytes>>)
      requires Sane(Now())
      modifies this`dict, this`expires, this`propagated
      ensures Sane(Now()) && ViewOf(Now(), now) == ViewOf(old(Now()), now)
      ensures Swept(old(Now()), Now(), old(propagated), propagated, now)
      ensures Cycled(old(Now()), turns, limit, now) && Now() == After(old(Now()), turns, now)
      ensures (forall k :: k in old(expires) ==> old(expires)[k].at < now) ==>
                expires == map[] || TimeUp(|turns|, limit)
    {
      hide Sane, Swept, ViewOf, Cycle, AllPresent, After;
      SweepNone(Now(), propagated, now);
      NoTurns(Now(), now);
      var iteration := 0;
      var again := true;
      turns := [];
      while again
        invariant Sane(Now()) && Swept(old(Now()), Now(), old(propagated), propagated, now)
        invariant iteration == |turns| && Now() == After(old(Now()), turns, now)
        invariant TurnsOk(old(Now()), turns, limit, now)
        invariant again <==> turns == [] || LastGoesOn(old(Now()), turns, limit, now)
        decreases |expires|, again
      {
        ghost var was := Now();
        var num := if |expires| > LOOKUPS_PER_CRON then LOOKUPS_PER_CRON else |expires|;
        var expired;
        ghost var drawn;
        expired, drawn := Draw(num, now, old(Now()), old(propagated));
        iteration := iteration + 1;
        OneTurn(old(Now()), turns, drawn, limit, now);
        turns := turns + [drawn];
        if iteration % 256 == 0 && iteration > limit {
          break;
        }
        again := expired > LOOKUPS_PER_CRON / 4;
      }
      SweptView(old(Now()), Now(), old(propagated), propagated, now);
      Emptied(old(Now()), turns, limit, now);
    }
  }

  ghost predicate InView(db: Db, k: bytes, now: int) {
    k in ViewOf(db, now)
  }

  /** A lookup of one key leaves the others past their deadlines or not. */
  lemma StaleApart(db: Db, k: bytes, now: int)
    requires Sane(db)
    ensures var r := KeyspaceModel.ExpireIfNeeded(db, k, now);
      && (Lookup(r, k) == None <==> !InView(db, k, now)) && !(InView(db, k, now) && Stale(db, k, now))
      && forall l :: l != k ==> (Stale(r, l, now) <==> Stale(db, l, now))
  {
    ExpireKeeps(db, k, now);
  }

  ghost function States(dbs: seq<RedisDb>): (r: seq<Db>)
    reads dbs
    ensures |r| == |dbs| && forall i :: 0 <= i < |dbs| ==> r[i] == dbs[i].Now()
  {
    seq(|dbs|, i requires 0 <= i < |dbs| reads dbs => dbs[i].Now())
  }

  /** MOVE from database `i` meets `k` past its deadline in database `j`. */
  ghost predicate MoveMeets(dbs: seq<Db>, i: nat, k: bytes, to: int, now: int, j: nat)
    requires i < |dbs| && j < |dbs|
  {
    && 0 <= to < |dbs| && to != i
    && Stale(dbs[j], k, now)
    && (j == i || (j == to && InView(dbs[i], k, now)))
  }

  /** moveCommand for a client that has selected database `i`. */
  method MoveCommand(dbs: seq<RedisDb>, i: nat, k: bytes, to: int, now: int) returns (reply: Reply)
    requires i < |dbs| && KeyspaceRuns.AllSane(States(dbs)) && now >= 0
    requires forall j, l :: 0 <= j < l < |dbs| ==> dbs[j] != dbs[l]
    modifies dbs
    ensures (States(dbs), reply) == KeyspaceRuns.Execute(old(States(dbs)), KeyspaceRuns.MoveKey(i, k, to), now)
    ensures KeyspaceRuns.AllSane(States(dbs))
    ensures forall j :: 0 <= j < |dbs| ==>
      dbs[j].propagated == old(dbs[j].propagated) + if MoveMeets(old(States(dbs)), i, k, to, now, j) then [k] else []
  {
    hide Sane, Move;
    KeyspaceRuns.ExecuteRefines(States(dbs), KeyspaceRuns.MoveKey(i, k, to), now);
    if to < 0 || to >= |dbs| {
      return Refused;
    }
    if dbs[to] == dbs[i] {
      return Refused;
    }
    ghost var was := States(dbs);
    reply := MoveBetween(dbs[i], dbs[to], k, now);
    assert States(dbs) == was[i := dbs[i].Now()][to := dbs[to].Now()];
  }

  /** The lookups and the move itself. */
  method MoveBetween(src: RedisDb, dst: RedisDb, k: bytes, now: int) returns (reply: Reply)
    requires src != dst && Sane(src.Now()) && Sane(dst.Now())
    modifies src, dst
    ensures (src.Now(), dst.Now(), reply) == Move(old(src.Now()), old(dst.Now()), k, now)
    ensures Sane(src.Now()) && Sane(dst.Now())
    ensures src.propagated == old(src.propagated) + if Stale(old(src.Now()), k, now) then [k] else []
    ensures dst.propagated == old(dst.propagated) +
              if InView(old(src.Now()), k, now) && Stale(old(dst.Now()), k, now) then [k] else []
  {
    hide Sane, ViewOf, Stale;
    StaleApart(src.Now(), k, now);
    MoveRefines(src.Now(), dst.Now(), k, now);
    var o := src.LookupKey(k, now);
    if o == None {
      return Num(0);
    }
    var there := dst.LookupKey(k, now);
    if there != None {
      return Num(0);
    }
    dst.Add(k, o.value);
    var _ := src.Delete(k);
    reply := Num(1);
  }

  /** From `db0` to `db` only stale keys have gone, each propagated once since `p0`. */
  ghost predicate Swept(db0: Db, db: Db, p0: seq<bytes>, p: seq<bytes>, now: int) {
    && p0 <= p
    && (forall k :: k in db.dict ==> k in db0.dict && db.dict[k] == db0.dict[k])
    && (forall k :: k in db0.dict && k !in db.dict ==> Stale(db0, k, now) && k in p[|p0|..])
    && (forall k :: k in db.dict ==> (k in db.expires <==> k in db0.expires))
    && (forall k :: k in db.dict && k in db.expires ==> db.expires[k] == db0.expires[k])
    && (forall i :: |p0| <= i < |p| ==> p[i] in db0.dict && p[i] !in db.dict)
    && (forall i, j :: |p0| <= i < j < |p| ==> p[i] != p[j])
  }

  lemma SweepNone(db: Db, p: seq<bytes>, now: int)
    ensures Swept(db, db, p, p, now)
  {
    assert p[|p|..] == [];
  }

  lemma SweepOne(db0: Db, db: Db, p0: seq<bytes>, p: seq<bytes>, k: bytes, now: int)
    requires Sane(db) && Swept(db0, db, p0, p, now) && k in db.expires && now > db.expires[k].at
    ensures Sane(DbDelete(db, k)) && Swept(db0, DbDelete(db, k), p0, p + [k], now)
  {
    DeleteKeeps(db, k, now);
    assert k in db.dict && db.expires[k] == db0.expires[k] && k in db0.dict;
    hide Sane, ViewOf;
    SweptMore(db0, db, p0, p, k, now);
  }

  lemma SweptMore(db0: Db, db: Db, p0: seq<bytes>, p: seq<bytes>, k: bytes, now: int)
    requires Swept(db0, db, p0, p, now) && k in db.dict && k in db0.dict && Stale(db0, k, now)
    ensures Swept(db0, DbDelete(db, k), p0, p + [k], now)
  {
    var q := p + [k];
    assert q[|p0|..] == p[|p0|..] + [k];
    assert p0 <= q;
  }

  lemma SweptView(db0: Db, db: Db, p0: seq<bytes>, p: seq<bytes>, now: int)
    requires Swept(db0, db, p0, p, now)
    ensures ViewOf(db, now) == ViewOf(db0, now)
  {
    var v, w := ViewOf(db, now), ViewOf(db0, now);
    forall k ensures k in v <==> k in w {}
    forall k | k in v ensures v[k] == w[k] {}
  }

  lemma SomeKey(m: map<bytes, Deadline>)
    requires |m| != 0
    ensures exists k :: k in m
  {
    assert m.Keys != {};
  }

  lemma NoKeys(m: map<bytes, Deadline>)
    requires |m| == 0
    ensures m == map[]
  {
    assert m.Keys == {};
  }

  lemma Fewer(m: map<bytes, Deadline>, k: bytes)
    requires k in m
    ensures |m - {k}| == |m| - 1
  {
    assert (m - {k}).Keys == m.Keys - {k};
  }

  // ---- the turns of the expire cycle ------------------------------------------

  /** Each key is in `expires` when it is drawn. */
  ghost predicate AllPresent(db: Db, drawn: seq<bytes>, now: int) {
    forall i :: 0 <= i < |drawn| ==> drawn[i] in Cycle(db, drawn[..i], now).expires
  }

  /** The database behind some turns. */
  ghost function After(db: Db, turns: seq<seq<bytes>>, now: int): Db {
    if turns == [] then db else Cycle(After(db, turns[..|turns| - 1], now), turns[|turns| - 1], now)
  }

  /** A turn draws ten keys, or as many as there are deadlines. */
  ghost predicate TurnOk(db: Db, drawn: seq<bytes>, now: int) {
    |drawn| == (if |db.expires| > LOOKUPS_PER_CRON then LOOKUPS_PER_CRON else |db.expires|)
    && AllPresent(db, drawn, now)
  }

  /** The time is up behind the n-th turn. */
  predicate TimeUp(n: nat, limit: nat) {
    n % 256 == 0 && n > limit
  }

  /** Another turn follows the n-th: more than two of its keys had expired, and the time
      is not up. */
  ghost predicate GoesOn(db: Db, drawn: seq<bytes>, n: nat, limit: nat, now: int) {
    |db.expires| - |Cycle(db, drawn, now).expires| > LOOKUPS_PER_CRON / 4 && !TimeUp(n, limit)
  }

  ghost predicate TurnsOk(db: Db, turns: seq<seq<bytes>>, limit: nat, now: int) {
    forall n :: 0 <= n < |turns| ==>
      && TurnOk(After(db, turns[..n], now), turns[n], now)
      && (n + 1 < |turns| ==> GoesOn(After(db, turns[..n], now), turns[n], n + 1, limit, now))
  }

  ghost predicate LastGoesOn(db: Db, turns: seq<seq<bytes>>, limit: nat, now: int)
    requires turns != []
  {
    var n := |turns| - 1;
    GoesOn(After(db, turns[..n], now), turns[n], n + 1, limit, now)
  }

  /** Turns follow each other as long as they go on, and no longer. */
  ghost predicate Cycled(db: Db, turns: seq<seq<bytes>>, limit: nat, now: int) {
    turns != [] && TurnsOk(db, turns, limit, now) && !LastGoesOn(db, turns, limit, now)
  }

  lemma NoneDrawn(db: Db, now: int)
    ensures AllPresent(db, [], now) && Cycle(db, [], now) == db
  {
  }

  lemma NoTurns(db: Db, now: int)
    ensures After(db, [], now) == db
  {
  }

  lemma OneDrawn(db: Db, drawn: seq<bytes>, k: bytes, now: int)
    requires AllPresent(db, drawn, now) && k in Cycle(db, drawn, now).expires
    ensures AllPresent(db, drawn + [k], now)
    ensures var r := Cycle(db, drawn, now);
      Cycle(db, drawn + [k], now) == if now > r.expires[k].at then DbDelete(r, k) else r
  {
    hide Cycle, DbDelete;
    CycleMore(db, drawn, k, now);
    var all := drawn + [k];
    forall i | 0 <= i < |all| ensures all[i] in Cycle(db, all[..i], now).expires {
      assert all[..i] == if i < |drawn| then drawn[..i] else drawn;
    }
  }

  lemma OneTurn(db: Db, turns: seq<seq<bytes>>, drawn: seq<bytes>, limit: nat, now: int)
    requires TurnsOk(db, turns, limit, now) && (turns != [] ==> LastGoesOn(db, turns, limit, now))
    requires TurnOk(After(db, turns, now), drawn, now)
    ensures TurnsOk(db, turns + [drawn], limit, now)
    ensures After(db, turns + [drawn], now) == Cycle(After(db, turns, now), drawn, now)
    ensures LastGoesOn(db, turns + [drawn], limit, now) <==>
              GoesOn(After(db, turns, now), drawn, |turns| + 1, limit, now)
  {
    hide Cycle, TurnOk, GoesOn;
    var all := turns + [drawn];
    assert all[..|turns|] == turns;
    forall n | 0 <= n < |all|
      ensures TurnOk(After(db, all[..n], now), all[n], now)
      ensures n + 1 < |all| ==> GoesOn(After(db, all[..n], now), all[n], n + 1, limit, now)
    {
      if n < |turns| { assert all[..n] == turns[..n]; }
    }
  }

  /** When every deadline has passed, the cycle removes all keys that have one unless
      the time is up. */
  lemma Emptied(db: Db, turns: seq<seq<bytes>>, limit: nat, now: int)
    requires Cycled(db, turns, limit, now)
    ensures (forall k :: k in db.expires ==> db.expires[k].at < now) && !TimeUp(|turns|, limit) ==>
              After(db, turns, now).expires == map[]
  {
    hide Cycle, AllPresent;
    if (forall k :: k in db.expires ==> db.expires[k].at < now) && !TimeUp(|turns|, limit) {
      var n := |turns| - 1;
      var s := After(db, turns[..n], now);
      AfterLess(db, turns[..n], now);
      AllRemoved(s, turns[n], now);
      assert TurnOk(s, turns[n], now);
      var e := Cycle(s, turns[n], now).expires;
      NoKeys(e);
    }
  }

  lemma {:induction false} AfterLess(db: Db, turns: seq<seq<bytes>>, now: int)
    ensures var r := After(db, turns, now);
      forall k :: k in r.expires ==> k in db.expires && r.expires[k] == db.expires[k]
    decreases |turns|
  {
    hide Cycle, Gone;
    if turns != [] {
      var n := |turns| - 1;
      AfterLess(db, turns[..n], now);
      CycleExact(After(db, turns[..n], now), turns[n], now);
    }
  }

  /** Where every deadline has passed, each key drawn is removed. */
  lemma {:induction false} AllRemoved(db: Db, drawn: seq<bytes>, now: int)
    requires AllPresent(db, drawn, now) && forall k :: k in db.expires ==> db.expires[k].at < now
    ensures |Cycle(db, drawn, now).expires| == |db.expires| - |drawn|
    decreases |drawn|
  {
    if drawn != [] {
      var n := |drawn| - 1;
      var r, k := Cycle(db, drawn[..n], now), drawn[n];
      assert drawn == drawn[..n] + [k] && k in r.expires;
      forall i | 0 <= i < n ensures drawn[..n][i] in Cycle(db, drawn[..n][..i], now).expires {
        assert drawn[..n][..i] == drawn[..i];
      }
      hide Cycle, Gone;
      AllRemoved(db, drawn[..n], now);
      CycleExact(db, drawn[..n], now);
      CycleMore(db, drawn[..n], k, now);
      Fewer(r.expires, k);
    }
  }
}
