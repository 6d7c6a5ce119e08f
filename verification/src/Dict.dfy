/**
dict.c: the dictionary object. Chains are sequences of entries, so unlinking an
entry is dropping an element; the loops, the two tables and the counters are
those of the source. `Contents` is the map the object stands for.
*/
module Dict {
  import opened Common
  import opened DictModel

  class Dict<K(==, !new), V> {
    const hash: K -> nat
    var ht0: Table<K, V>
    var used0: nat
    var ht1: Table<K, V>
    var used1: nat
    var rehashidx: int
    var iterators: nat
    ghost var Contents: map<K, V>

    ghost function Now(): State<K, V>
      reads this
    {
      State(ht0, used0, ht1, used1, rehashidx, iterators)
    }

    ghost predicate Valid()
      reads this
    {
      Inv(hash, Now()) && Represents(hash, Now(), Contents)
    }

    /** dictCreate. */
    constructor (h: K -> nat)
      ensures Valid() && Contents == map[] && Now() == Create() && hash == h
    {
      hash := h;
      ht0, used0, ht1, used1, rehashidx, iterators := [], 0, [], 0, -1, 0;
      Contents := map[];
    }

    /** Where `k` is in a chain, or its length. */
    static method ScanChain(c: Chain<K, V>, k: K) returns (i: nat)
      ensures i <= |c| && (i < |c| ==> c[i].0 == k) && (i == |c| <==> ChainGet(c, k) == None)
      ensures forall j :: 0 <= j < i ==> c[j].0 != k
      ensures i < |c| ==> ChainGet(c, k) == Some(c[i].1)
    {
      i := 0;
      while i < |c| && c[i].0 != k
        invariant i <= |c| && forall j :: 0 <= j < i ==> c[j].0 != k
        invariant ChainGet(c, k) == ChainGet(c[i..], k)
      {
        i := i + 1;
      }
    }

    /** _dictNextPower. */
    static method NextPowerOf(size: nat) returns (i: nat)
      ensures i == NextPower(INITIAL_SIZE, size)
    {
      i := INITIAL_SIZE;
      while i < size
        invariant i > 0 && NextPower(i, size) == NextPower(INITIAL_SIZE, size)
      {
        i := i * 2;
      }
    }

    /** dictExpand. */
    method ExpandTo(size: nat) returns (ok: bool)
      requires Valid()
      modifies this
      ensures Valid() && Contents == old(Contents)
      ensures Now() == Expand(old(Now()), size)
      ensures ok == (!old(Now()).Rehashing() && old(used0) <= size)
    {
      ExpandKeeps(hash, Now(), size);
      hide Inv, Get;
      var realsize := NextPowerOf(size);
      if rehashidx != -1 || used0 > size {
        return false;
      }
      var n: Table<K, V> := Empties(realsize);
      if ht0 == [] {
        ht0, used0 := n, 0;
        return true;
      }
      ht1, used1 := n, 0;
      rehashidx := 0;
      return true;
    }

    /** dictRehash. */
    method Rehash(n: nat) returns (more: bool)
      requires Valid()
      modifies this
      ensures Valid() && Contents == old(Contents)
      ensures Now() == Migrations(hash, old(Now()), n)
      ensures more == Now().Rehashing()
    {
      hide Inv, Represents;
      if rehashidx == -1 {
        return false;
      }
      var left := n;
      while left > 0
        invariant Valid() && Contents == old(Contents) && rehashidx != -1
        invariant Migrations(hash, Now(), left) == Migrations(hash, old(Now()), n)
      {
        MigrateKeepsMap(hash, Now(), Contents);
        if used0 == 0 {
          ht0, used0 := ht1, used1;
          ht1, used1 := [], 0;
          rehashidx := -1;
          return false;
        }
        MoveOneBucket();
        left := left - 1;
      }
      return true;
    }

    /** The scan for a bucket that is not empty and its move, dict.c:206-222. */
    method MoveOneBucket()
      requires Valid() && rehashidx != -1 && used0 != 0
      modifies this
      ensures Valid() && Contents == old(Contents) && rehashidx != -1
      ensures old(Ready(Now())) && Now() == Migrate(hash, old(Now()))
    {
      hide Inv, Represents;
      ghost var s := Now();
      MigrateKeepsMap(hash, s, Contents);
      ghost var goal := FirstNonEmpty(ht0, rehashidx);
      while ht0[rehashidx] == []
        invariant 0 <= rehashidx < |ht0| && FirstNonEmpty(ht0, rehashidx) == goal < |ht0|
        invariant Now() == s.(rehashidx := rehashidx) && Contents == old(Contents)
        decreases |ht0| - rehashidx
      {
        rehashidx := rehashidx + 1;
      }
      assert rehashidx == goal;
      var c := ht0[rehashidx];
      var j := 0;
      while j < |c|
        invariant j <= |c| && ht1 != [] && used1 == s.used1 + j && used0 == s.used0 - j && |c| <= s.used0
        invariant PushAll(hash, ht1, c[j..]) == PushAll(hash, s.ht1, c)
        invariant ht0 == s.ht0 && rehashidx == goal && iterators == s.iterators && Contents == old(Contents)
      {
        assert c[j..][1..] == c[j + 1..];
        ht1 := Push(hash, ht1, c[j]);
        used0, used1 := used0 - 1, used1 + 1;
        j := j + 1;
      }
      ht0 := ht0[rehashidx := []];
      rehashidx := rehashidx + 1;
      assert Now() == Migrate(hash, s);
    }

    /** _dictRehashStep. */
    method RehashStep()
      requires Valid() && rehashidx != -1
      modifies this
      ensures Valid() && Contents == old(Contents) && Now() == Step(hash, old(Now()))
    {
      if iterators == 0 {
        var more := Rehash(1);
      }
    }

    /** _dictExpandIfNeeded: never fails. */
    method ExpandIfDue(can: bool) returns (ok: bool)
      requires Valid()
      modifies this
      ensures ok && Valid() && Contents == old(Contents)
      ensures Now() == ExpandIfNeeded(old(Now()), can) && ht0 != []
    {
      hide Inv, Represents, Expand;
      ExpandIfNeededKeeps(hash, Now(), Contents, can);
      if rehashidx != -1 {
        return true;
      }
      if |ht0| == 0 {
        ok := ExpandTo(INITIAL_SIZE);
        return;
      }
      if used0 >= |ht0| && (can || used0 / |ht0| > FORCE_RATIO) {
        ok := ExpandTo((if |ht0| > used0 then |ht0| else used0) * 2);
        return;
      }
      return true;
    }

    /** The search both `_dictKeyIndex` and `dictFind` make: table by table, the
        second one only while rehashing. */
    method Lookup(key: K) returns (table: nat, idx: nat, pos: nat, found: bool)
      requires Valid() && ht0 != []
      ensures found == Get(hash, Now(), key).Some?
      ensures found ==> table <= 1 && var ht := if table == 0 then ht0 else ht1;
              idx < |ht| && pos < |ht[idx]| && ht[idx][pos].0 == key && Get(hash, Now(), key) == Some(ht[idx][pos].1)
              && idx == Slot(hash, ht, key) && (forall j :: 0 <= j < pos ==> ht[idx][j].0 != key)
              && (table == 0 <==> TableGet(hash, ht0, key).Some?)
      ensures !found ==> var ht := if rehashidx != -1 then ht1 else ht0;
              ht != [] && idx == Slot(hash, ht, key)
    {
      hide Inv, Represents, ChainGet, Slot;
      Bounds(hash, Now());
      table, found, idx, pos := 0, false, 0, 0;
      while table <= 1
        invariant table <= 2 && !found
        invariant table > 0 ==> TableGet(hash, ht0, key) == None && rehashidx != -1
        invariant table > 1 ==> TableGet(hash, ht1, key) == None && idx == Slot(hash, ht1, key)
      {
        var ht := if table == 0 then ht0 else ht1;
        idx := Slot(hash, ht, key);
        pos := ScanChain(ht[idx], key);
        if pos < |ht[idx]| {
          found := true;
          return;
        }
        if rehashidx == -1 {
          return;
        }
        table := table + 1;
      }
    }

    /** dictAdd: false (DICT_ERR) when the key is there already. */
    method AddEntry(key: K, val: V, can: bool) returns (ok: bool)
      requires Valid()
      modifies this
      ensures Valid() && Now() == Add(hash, old(Now()), key, val, can)
      ensures ok == (key !in old(Contents))
      ensures Contents == if ok then old(Contents)[key := val] else old(Contents)
    {
      hide Inv, Represents, Get, ExpandIfNeeded, Step;
      ghost var s := Now();
      StepKeepsMap(hash, s, Contents);
      AddKeeps(hash, s, Contents, key, val, can);
      PresentIff(hash, s, Contents, key);
      if rehashidx != -1 {
        RehashStep();
      } else {
        StepIdle(hash, s);
      }
      assert Now() == Step(hash, s);
      var expanded := ExpandIfDue(can);
      ghost var p := Now();
      assert p == Prepare(hash, s, can);
      PresentIff(hash, p, Contents, key);
      var table, idx, pos, found := Lookup(key);
      if found {
        return false;
      }
      if rehashidx != -1 {
        ht1 := ht1[idx := [(key, val)] + ht1[idx]];
        used1 := used1 + 1;
      } else {
        ht0 := ht0[idx := [(key, val)] + ht0[idx]];
        used0 := used0 + 1;
      }
      Contents := Contents[key := val];
      return true;
    }

    /** dictFind. */
    method FindEntry(key: K) returns (r: Option<V>)
      requires Valid()
      modifies this
      ensures Valid() && Contents == old(Contents) && Now() == Find(hash, old(Now()))
      ensures r == if key in Contents then Some(Contents[key]) else None
    {
      hide Inv, Represents, Get, Step;
      ghost var s := Now();
      Bounds(hash, s);
      StepKeepsMap(hash, s, Contents);
      PresentIff(hash, s, Contents, key);
      if |ht0| == 0 {
        return None;
      }
      if rehashidx != -1 {
        RehashStep();
      } else {
        StepIdle(hash, s);
      }
      PresentIff(hash, Now(), Contents, key);
      FindHasTable(hash, s);
      var table, idx, pos, found := Lookup(key);
      return if !found then None else Some((if table == 0 then ht0 else ht1)[idx][pos].1);
    }

    /** dictReplace: true when the key is new. */
    method ReplaceEntry(key: K, val: V, can: bool) returns (added: bool)
      requires Valid()
      modifies this
      ensures Valid() && Now() == Replace(hash, old(Now()), key, val, can)
      ensures Contents == old(Contents)[key := val] && added == (key !in old(Contents))
    {
      hide Inv, Represents, Get, Step, Prepare, Insert;
      ghost var s := Now();
      PresentIff(hash, s, Contents, key);
      ReplaceKeeps(hash, s, Contents, key, val, can);
      added := AddEntry(key, val, can);
      if added {
        return;
      }
      ghost var p := Now();
      Bounds(hash, p);
      StepKeepsMap(hash, p, Contents);
      if rehashidx != -1 {
        RehashStep();
      } else {
        StepIdle(hash, p);
      }
      FindHasTable(hash, p);
      ghost var s2 := Now();
      PresentIff(hash, s2, Contents, key);
      var table, idx, pos, found := Lookup(key);
      SetAt(hash, if table == 0 then ht0 else ht1, key, val, pos);
      if table == 0 {
        ht0 := ht0[idx := ht0[idx][pos := (key, val)]];
      } else {
        ht1 := ht1[idx := ht1[idx][pos := (key, val)]];
      }
      assert Now() == SetValue(hash, s2, key, val);
      Contents := Contents[key := val];
    }

    /** dictGenericDelete: false (DICT_ERR) when the key is not there. */
    method DeleteEntry(key: K) returns (ok: bool)
      requires Valid()
      modifies this
      ensures Valid() && Now() == Delete(hash, old(Now()), key)
      ensures Contents == old(Contents) - {key} && ok == (key in old(Contents))
    {
      hide Inv, Represents, Get, Step;
      ghost var s := Now();
      Bounds(hash, s);
      StepKeepsMap(hash, s, Contents);
      PresentIff(hash, s, Contents, key);
      DeleteKeeps(hash, s, Contents, key);
      if |ht0| == 0 {
        assert Contents - {key} == Contents;
        return false;
      }
      if rehashidx != -1 {
        RehashStep();
      } else {
        StepIdle(hash, s);
      }
      FindHasTable(hash, s);
      ghost var s1 := Now();
      PresentIff(hash, s1, Contents, key);
      var table, idx, pos, found := Lookup(key);
      if !found {
        assert Contents - {key} == Contents;
        return false;
      }
      UsedWhereFound(hash, s1, key);
      RemoveAt(hash, if table == 0 then ht0 else ht1, key, pos);
      if table == 0 {
        ht0 := ht0[idx := ht0[idx][..pos] + ht0[idx][pos + 1..]];
        used0 := used0 - 1;
      } else {
        ht1 := ht1[idx := ht1[idx][..pos] + ht1[idx][pos + 1..]];
        used1 := used1 - 1;
      }
      assert Now() == Unlink(hash, s1, key);
      Contents := Contents - {key};
      return true;
    }

    /** dictResize. */
    method ResizeToFit(can: bool) returns (ok: bool)
      requires Valid()
      modifies this
      ensures Valid() && Contents == old(Contents) && Now() == Resize(old(Now()), can)
      ensures ok == (can && !old(Now()).Rehashing())
    {
      if !can || rehashidx != -1 {
        return false;
      }
      ok := ExpandTo(if used0 < INITIAL_SIZE then INITIAL_SIZE else used0);
    }
  }

  lemma StepIdle<K, V>(h: K -> nat, s: State<K, V>)
    requires !s.Rehashing()
    ensures Step(h, s) == s
  {
  }

  lemma PresentIff<K(!new), V>(h: K -> nat, s: State<K, V>, m: map<K, V>, k: K)
    requires Represents(h, s, m)
    ensures Get(h, s, k) == if k in m then Some(m[k]) else None
  {
  }

  lemma FindHasTable<K(!new), V>(h: K -> nat, s: State<K, V>)
    requires Inv(h, s) && s.ht0 != []
    ensures Step(h, s).ht0 != []
  {
  }

  /** Writing at the position the search found is setting the key's value. */
  lemma {:induction false} ChainSetAt<K, V>(c: Chain<K, V>, k: K, v: V, pos: nat)
    requires pos < |c| && c[pos].0 == k && forall j :: 0 <= j < pos ==> c[j].0 != k
    ensures ChainSet(c, k, v) == c[pos := (k, v)]
    ensures ChainRemove(c, k) == c[..pos] + c[pos + 1..]
  {
    if pos > 0 {
      assert c[0].0 != k;
      ChainSetAt(c[1..], k, v, pos - 1);
      assert c[1..][..pos - 1] == c[1..pos] && c[1..][pos..] == c[pos + 1..];
    }
  }

  lemma SetAt<K, V>(h: K -> nat, t: Table<K, V>, k: K, v: V, pos: nat)
    requires t != [] && pos < |t[Slot(h, t, k)]| && t[Slot(h, t, k)][pos].0 == k
    requires forall j :: 0 <= j < pos ==> t[Slot(h, t, k)][j].0 != k
    ensures TableSet(h, t, k, v) == t[Slot(h, t, k) := t[Slot(h, t, k)][pos := (k, v)]]
  {
    ChainSetAt(t[Slot(h, t, k)], k, v, pos);
  }

  lemma RemoveAt<K, V>(h: K -> nat, t: Table<K, V>, k: K, pos: nat)
    requires t != [] && pos < |t[Slot(h, t, k)]| && t[Slot(h, t, k)][pos].0 == k
    requires forall j :: 0 <= j < pos ==> t[Slot(h, t, k)][j].0 != k
    ensures TableRemove(h, t, k) == t[Slot(h, t, k) := t[Slot(h, t, k)][..pos] + t[Slot(h, t, k)][pos + 1..]]
  {
    var c := t[Slot(h, t, k)];
    ChainSetAt(c, k, c[pos].1, pos);
  }

  lemma UsedWhereFound<K(!new), V>(h: K -> nat, s: State<K, V>, k: K)
    requires Inv(h, s) && Get(h, s, k).Some?
    ensures if TableGet(h, s.ht0, k).Some? then s.used0 > 0 else s.used1 > 0
  {
    if TableGet(h, s.ht0, k).Some? {
      TableRemoveOk(h, s.ht0, s.used0, k);
    } else {
      TableRemoveOk(h, s.ht1, s.used1, k);
    }
  }
}
