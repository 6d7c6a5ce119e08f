/**
The incrementally rehashed dictionary of dict.c as a state and its transitions.
A table is a sequence of chains; a chain lists its entries from head to tail.
The transitions say what each operation does to the two tables; the class in
module Dict carries them out step by step.
*/
module DictModel {
  import opened Common

  type Entry<K, V> = (K, V)
  type Chain<K, V> = seq<Entry<K, V>>
  type Table<K, V> = seq<Chain<K, V>>

  const INITIAL_SIZE: nat := 4
  const FORCE_RATIO: nat := 5

  /** `struct dict`: both tables with their `used` counts, the migration cursor
      (-1 when not rehashing) and the number of running safe iterators. */
  datatype State<K, V> = State(
    ht0: Table<K, V>, used0: nat, ht1: Table<K, V>, used1: nat, rehashidx: int, iterators: nat)
  {
    predicate Rehashing() { rehashidx != -1 }
  }

  // ---- chains and tables --------------------------------------------------

  function ChainGet<K(==), V>(c: Chain<K, V>, k: K): Option<V> {
    if c == [] then None else if c[0].0 == k then Some(c[0].1) else ChainGet(c[1..], k)
  }

  function ChainRemove<K(==), V>(c: Chain<K, V>, k: K): Chain<K, V> {
    if c == [] then [] else if c[0].0 == k then c[1..] else [c[0]] + ChainRemove(c[1..], k)
  }

  function ChainSet<K(==), V>(c: Chain<K, V>, k: K, v: V): Chain<K, V> {
    if c == [] then [] else if c[0].0 == k then [(k, v)] + c[1..] else [c[0]] + ChainSet(c[1..], k, v)
  }

  /** `hash & sizemask`, the size being a power of two. */
  function Slot<K, V>(h: K -> nat, t: Table<K, V>, k: K): (i: nat)
    requires t != []
    ensures i < |t|
  {
    h(k) % |t|
  }

  function TableGet<K(==), V>(h: K -> nat, t: Table<K, V>, k: K): Option<V> {
    if t == [] then None else ChainGet(t[Slot(h, t, k)], k)
  }

  /** A new entry goes to the head of its chain. */
  function Push<K, V>(h: K -> nat, t: Table<K, V>, e: Entry<K, V>): (t': Table<K, V>)
    requires t != []
    ensures |t'| == |t|
  {
    var i := Slot(h, t, e.0);
    t[i := [e] + t[i]]
  }

  function PushAll<K, V>(h: K -> nat, t: Table<K, V>, c: Chain<K, V>): (t': Table<K, V>)
    requires t != []
    ensures |t'| == |t|
    decreases |c|
  {
    if c == [] then t else PushAll(h, Push(h, t, c[0]), c[1..])
  }

  function Total<K, V>(t: Table<K, V>): nat {
    if t == [] then 0 else |t[0]| + Total(t[1..])
  }

  function FirstNonEmpty<K, V>(t: Table<K, V>, i: nat): (j: nat)
    requires i <= |t|
    ensures i <= j <= |t| && (forall k :: i <= k < j ==> t[k] == []) && (j < |t| ==> t[j] != [])
    decreases |t| - i
  {
    if i < |t| && t[i] == [] then FirstNonEmpty(t, i + 1) else i
  }

  function Empties<K, V>(n: nat): Table<K, V> {
    seq(n, _ => [])
  }

  // ---- transitions --------------------------------------------------------

  function Create<K, V>(): State<K, V> {
    State([], 0, [], 0, -1, 0)
  }

  ghost predicate PowerOfTwo(n: nat)
    decreases n
  {
    n == 1 || (n > 1 && n % 2 == 0 && PowerOfTwo(n / 2))
  }

  /** The smallest power of two that is at least 4, `n` times a power of two being
      the next candidate (_dictNextPower). */
  function NextPower(n: nat, size: nat): (p: nat)
    requires n > 0
    ensures p >= n && p >= size
    decreases size - n
  {
    if n >= size then n else NextPower(n * 2, size)
  }

  /** dictExpand; no change when the result is DICT_ERR. */
  function Expand<K, V>(s: State<K, V>, size: nat): State<K, V> {
    if s.Rehashing() || s.used0 > size then s
    else
      var empty := Empties(NextPower(INITIAL_SIZE, size));
      if s.ht0 == [] then s.(ht0 := empty, used0 := 0)
      else s.(ht1 := empty, used1 := 0, rehashidx := 0)
  }

  /** _dictExpandIfNeeded; `can` is the global dict_can_resize. */
  function ExpandIfNeeded<K, V>(s: State<K, V>, can: bool): State<K, V> {
    if s.Rehashing() then s
    else if |s.ht0| == 0 then Expand(s, INITIAL_SIZE)
    else if s.used0 >= |s.ht0| && (can || s.used0 / |s.ht0| > FORCE_RATIO) then
      Expand(s, (if |s.ht0| > s.used0 then |s.ht0| else s.used0) * 2)
    else s
  }

  /** dictResize. */
  function Resize<K, V>(s: State<K, V>, can: bool): State<K, V> {
    if !can || s.Rehashing() then s
    else Expand(s, if s.used0 < INITIAL_SIZE then INITIAL_SIZE else s.used0)
  }

  /** One round of the loop of dictRehash: the new table takes over, or the next
      bucket that is not empty moves. */
  function Migrate<K, V>(h: K -> nat, s: State<K, V>): State<K, V>
    requires s.Rehashing() && 0 <= s.rehashidx <= |s.ht0| && s.ht1 != []
  {
    if s.used0 == 0 then State(s.ht1, s.used1, [], 0, -1, s.iterators)
    else
      var i := FirstNonEmpty(s.ht0, s.rehashidx);
      if i == |s.ht0| then s
      else
        var c := s.ht0[i];
        State(s.ht0[i := []], if |c| <= s.used0 then s.used0 - |c| else 0,
              PushAll(h, s.ht1, c), s.used1 + |c|, i + 1, s.iterators)
  }

  predicate Ready<K, V>(s: State<K, V>) {
    s.Rehashing() ==> 0 <= s.rehashidx <= |s.ht0| && s.ht1 != []
  }

  /** _dictRehashStep, as the operations call it: nothing while a safe iterator runs. */
  function Step<K, V>(h: K -> nat, s: State<K, V>): State<K, V>
    requires Ready(s)
  {
    if s.Rehashing() && s.iterators == 0 then Migrate(h, s) else s
  }

  function Get<K(==), V>(h: K -> nat, s: State<K, V>, k: K): Option<V> {
    var r := TableGet(h, s.ht0, k);
    if r.Some? then r else TableGet(h, s.ht1, k)
  }

  function Insert<K, V>(h: K -> nat, s: State<K, V>, k: K, v: V): State<K, V>
    requires if s.Rehashing() then s.ht1 != [] else s.ht0 != []
  {
    if s.Rehashing() then s.(ht1 := Push(h, s.ht1, (k, v)), used1 := s.used1 + 1)
    else s.(ht0 := Push(h, s.ht0, (k, v)), used0 := s.used0 + 1)
  }

  function TableSet<K(==), V>(h: K -> nat, t: Table<K, V>, k: K, v: V): Table<K, V> {
    if t == [] then t else t[Slot(h, t, k) := ChainSet(t[Slot(h, t, k)], k, v)]
  }

  function TableRemove<K(==), V>(h: K -> nat, t: Table<K, V>, k: K): Table<K, V> {
    if t == [] then t else t[Slot(h, t, k) := ChainRemove(t[Slot(h, t, k)], k)]
  }

  /** Overwrites the value of a key that is present. */
  function SetValue<K(==), V>(h: K -> nat, s: State<K, V>, k: K, v: V): State<K, V> {
    if TableGet(h, s.ht0, k).Some? then s.(ht0 := TableSet(h, s.ht0, k, v))
    else s.(ht1 := TableSet(h, s.ht1, k, v))
  }

  /** Unlinks a key that is present. */
  function Unlink<K(==), V>(h: K -> nat, s: State<K, V>, k: K): State<K, V> {
    if TableGet(h, s.ht0, k).Some? then
      s.(ht0 := TableRemove(h, s.ht0, k), used0 := if s.used0 > 0 then s.used0 - 1 else 0)
    else
      s.(ht1 := TableRemove(h, s.ht1, k), used1 := if s.used1 > 0 then s.used1 - 1 else 0)
  }

  // ---- the invariant ------------------------------------------------------

  /** Every entry sits in the bucket its hash selects, and no key occurs twice. */
  ghost predicate ChainOk<K, V>(h: K -> nat, c: Chain<K, V>, n: nat, i: nat)
    requires n > 0
  {
    && (forall j :: 0 <= j < |c| ==> h(c[j].0) % n == i)
    && (forall j, l :: 0 <= j < l < |c| ==> c[j].0 != c[l].0)
  }

  ghost predicate TableOk<K, V>(h: K -> nat, t: Table<K, V>, used: nat) {
    && (t == [] || (|t| >= INITIAL_SIZE && PowerOfTwo(|t|)))
    && (forall i :: 0 <= i < |t| ==> ChainOk(h, t[i], |t|, i))
    && used == Total(t)
  }

  /** No key is in both tables. */
  ghost predicate Disjoint<K(!new), V>(h: K -> nat, s: State<K, V>) {
    forall k :: TableGet(h, s.ht0, k).Some? ==> TableGet(h, s.ht1, k) == None
  }

  ghost predicate Inv<K(!new), V>(h: K -> nat, s: State<K, V>) {
    && TableOk(h, s.ht0, s.used0) && TableOk(h, s.ht1, s.used1)
    && Disjoint(h, s)
    && (if s.Rehashing()
        then s.ht0 != [] && s.ht1 != [] && 0 <= s.rehashidx <= |s.ht0|
             && forall i :: 0 <= i < s.rehashidx ==> s.ht0[i] == []
        else s.ht1 == [])
  }

  /** The two tables together stand for the map `m`. */
  ghost predicate Represents<K(!new), V>(h: K -> nat, s: State<K, V>, m: map<K, V>) {
    && (forall k :: Get(h, s, k) == if k in m then Some(m[k]) else None)
    && s.used0 + s.used1 == |m|
  }

  // ---- lemmas about chains and tables -------------------------------------

  lemma {:induction false} ChainGetIndex<K, V>(c: Chain<K, V>, k: K)
    ensures ChainGet(c, k).Some? <==> exists j :: 0 <= j < |c| && c[j].0 == k
  {
    if c != [] && c[0].0 != k {
      ChainGetIndex(c[1..], k);
      if ChainGet(c, k).Some? {
        var j :| 0 <= j < |c[1..]| && c[1..][j].0 == k;
        assert c[j + 1].0 == k;
      }
      if j :| 0 <= j < |c| && c[j].0 == k {
        assert c[1..][j - 1].0 == k;
      }
    }
  }

  lemma {:induction false} TotalUpdate<K, V>(t: Table<K, V>, i: nat, c: Chain<K, V>)
    requires i < |t|
    ensures Total(t[i := c]) == Total(t) - |t[i]| + |c|
    ensures |t[i]| <= Total(t)
  {
    if i == 0 {
      assert t[i := c][1..] == t[1..];
    } else {
      TotalUpdate(t[1..], i - 1, c);
      assert t[i := c][1..] == t[1..][i - 1 := c];
    }
  }

  lemma {:induction false} TotalEmpty<K, V>(t: Table<K, V>)
    ensures Total(t) == 0 <==> forall i :: 0 <= i < |t| ==> t[i] == []
  {
    if t != [] {
      TotalEmpty(t[1..]);
      if Total(t) == 0 {
        forall i | 0 <= i < |t| ensures t[i] == [] {
          if i > 0 { assert t[1..][i - 1] == []; }
        }
      } else if forall i :: 0 <= i < |t| ==> t[i] == [] {
        forall i | 0 <= i < |t[1..]| ensures t[1..][i] == [] { assert t[i + 1] == []; }
      }
    }
  }

  lemma PushGet<K, V>(h: K -> nat, t: Table<K, V>, e: Entry<K, V>, k: K)
    requires t != []
    ensures TableGet(h, Push(h, t, e), k) == if k == e.0 then Some(e.1) else TableGet(h, t, k)
  {
    var i := Slot(h, t, e.0);
    assert ([e] + t[i])[1..] == t[i];
  }

  lemma PushOk<K, V>(h: K -> nat, t: Table<K, V>, used: nat, e: Entry<K, V>)
    requires t != [] && TableOk(h, t, used) && TableGet(h, t, e.0) == None
    ensures TableOk(h, Push(h, t, e), used + 1)
  {
    var i := Slot(h, t, e.0);
    var c := [e] + t[i];
    TotalUpdate(t, i, c);
    ChainGetIndex(t[i], e.0);
    assert ChainOk(h, t[i], |t|, i);
    forall j, l | 0 <= j < l < |c| ensures c[j].0 != c[l].0 {
      assert c[l] == t[i][l - 1];
      if j > 0 { assert c[j] == t[i][j - 1]; }
    }
    assert ChainOk(h, c, |t|, i);
  }

  /** Moving a chain of new keys adds exactly its entries. */
  lemma {:induction false} PushAllOk<K(!new), V>(h: K -> nat, t: Table<K, V>, used: nat, c: Chain<K, V>, n: nat, i: nat)
    requires t != [] && TableOk(h, t, used) && n > 0 && ChainOk(h, c, n, i)
    requires forall k :: ChainGet(c, k).Some? ==> TableGet(h, t, k) == None
    ensures TableOk(h, PushAll(h, t, c), used + |c|)
    ensures forall k :: TableGet(h, PushAll(h, t, c), k) ==
                        (if ChainGet(c, k).Some? then ChainGet(c, k) else TableGet(h, t, k))
    decreases |c|
  {
    if c != [] {
      var t', rest := Push(h, t, c[0]), c[1..];
      assert ChainGet(c, c[0].0).Some?;
      PushOk(h, t, used, c[0]);
      assert ChainGet(rest, c[0].0) == None by { ChainGetIndex(rest, c[0].0); }
      forall k ensures TableGet(h, t', k) == if k == c[0].0 then Some(c[0].1) else TableGet(h, t, k) {
        PushGet(h, t, c[0], k);
      }
      PushAllOk(h, t', used + 1, rest, n, i);
    }
  }

  lemma {:induction false} ChainSetOk<K, V>(h: K -> nat, c: Chain<K, V>, n: nat, i: nat, k: K, v: V)
    requires n > 0 && ChainOk(h, c, n, i) && ChainGet(c, k).Some?
    ensures ChainOk(h, ChainSet(c, k, v), n, i) && |ChainSet(c, k, v)| == |c|
    ensures forall j :: 0 <= j < |c| ==> ChainSet(c, k, v)[j].0 == c[j].0
    ensures forall x :: x != k ==> ChainGet(ChainSet(c, k, v), x) == ChainGet(c, x)
    ensures ChainGet(ChainSet(c, k, v), k) == Some(v)
  {
    if c[0].0 == k {
      assert ([(k, v)] + c[1..])[1..] == c[1..];
    } else {
      ChainSetOk(h, c[1..], n, i, k, v);
      assert ([c[0]] + ChainSet(c[1..], k, v))[1..] == ChainSet(c[1..], k, v);
    }
  }

  lemma {:induction false} ChainRemoveOk<K, V>(h: K -> nat, c: Chain<K, V>, n: nat, i: nat, k: K)
    requires n > 0 && ChainOk(h, c, n, i) && ChainGet(c, k).Some?
    ensures ChainOk(h, ChainRemove(c, k), n, i) && |ChainRemove(c, k)| == |c| - 1
    ensures forall j :: 0 <= j < |c| - 1 ==> ChainRemove(c, k)[j] in c
    ensures forall x :: x != k ==> ChainGet(ChainRemove(c, k), x) == ChainGet(c, x)
    ensures ChainGet(ChainRemove(c, k), k) == None
  {
    if c[0].0 == k {
      ChainGetIndex(c[1..], k);
    } else {
      var r := ChainRemove(c[1..], k);
      ChainRemoveOk(h, c[1..], n, i, k);
      assert ([c[0]] + r)[1..] == r;
      forall j | 0 <= j < |r| ensures r[j].0 != c[0].0 {
        assert r[j] in c[1..];
      }
    }
  }

  /** Replacing the bucket of `k` by another good chain is seen by `k`'s bucket only. */
  lemma {:induction false} BucketUpdate<K(!new), V>(h: K -> nat, t: Table<K, V>, used: nat, k: K, c: Chain<K, V>)
    requires t != [] && TableOk(h, t, used)
    requires ChainOk(h, c, |t|, Slot(h, t, k))
    requires forall x :: x != k ==> ChainGet(c, x) == ChainGet(t[Slot(h, t, k)], x)
    ensures used - |t[Slot(h, t, k)]| + |c| >= 0
    ensures TableOk(h, t[Slot(h, t, k) := c], used - |t[Slot(h, t, k)]| + |c|)
    ensures forall x :: TableGet(h, t[Slot(h, t, k) := c], x) == if x == k then ChainGet(c, k) else TableGet(h, t, x)
  {
    var i := Slot(h, t, k);
    var t' := t[i := c];
    TotalUpdate(t, i, c);
    forall x ensures TableGet(h, t', x) == if x == k then ChainGet(c, k) else TableGet(h, t, x) {
      var j := Slot(h, t, x);
      assert Slot(h, t', x) == j && t'[j] == if j == i then c else t[j];
    }
  }

  lemma TableSetOk<K(!new), V>(h: K -> nat, t: Table<K, V>, used: nat, k: K, v: V)
    requires TableOk(h, t, used) && TableGet(h, t, k).Some?
    ensures TableOk(h, TableSet(h, t, k, v), used) && |TableSet(h, t, k, v)| == |t|
    ensures forall i :: 0 <= i < |t| && t[i] == [] ==> TableSet(h, t, k, v)[i] == []
    ensures forall x :: TableGet(h, TableSet(h, t, k, v), x) == if x == k then Some(v) else TableGet(h, t, x)
  {
    var i := Slot(h, t, k);
    ChainSetOk(h, t[i], |t|, i, k, v);
    BucketUpdate(h, t, used, k, ChainSet(t[i], k, v));
  }

  lemma TableRemoveOk<K(!new), V>(h: K -> nat, t: Table<K, V>, used: nat, k: K)
    requires TableOk(h, t, used) && TableGet(h, t, k).Some?
    ensures used > 0 && TableOk(h, TableRemove(h, t, k), used - 1) && |TableRemove(h, t, k)| == |t|
    ensures forall i :: 0 <= i < |t| && t[i] == [] ==> TableRemove(h, t, k)[i] == []
    ensures forall x :: TableGet(h, TableRemove(h, t, k), x) == if x == k then None else TableGet(h, t, x)
  {
    var i := Slot(h, t, k);
    ChainRemoveOk(h, t[i], |t|, i, k);
    BucketUpdate(h, t, used, k, ChainRemove(t[i], k));
  }

  lemma EmptiesOk<K(!new), V>(h: K -> nat, n: nat)
    requires n >= INITIAL_SIZE && PowerOfTwo(n)
    ensures TableOk<K, V>(h, Empties(n), 0)
    ensures forall k :: TableGet<K, V>(h, Empties(n), k) == None
  {
    TotalEmpty<K, V>(Empties(n));
  }

  lemma {:induction false} NextPowerOk(n: nat, size: nat)
    requires n >= INITIAL_SIZE && PowerOfTwo(n)
    ensures PowerOfTwo(NextPower(n, size))
    ensures NextPower(n, size) > n ==> NextPower(n, size) < 2 * size
    decreases size - n
  {
    if n < size {
      assert PowerOfTwo(n * 2);
      NextPowerOk(n * 2, size);
    }
  }

  /** A table of empty buckets holds no key. */
  lemma EmptyTableGet<K(!new), V>(h: K -> nat, t: Table<K, V>, used: nat)
    requires TableOk(h, t, used) && used == 0
    ensures forall k :: TableGet(h, t, k) == None
  {
    TotalEmpty(t);
    forall k ensures TableGet(h, t, k) == None {
      if t != [] { assert t[Slot(h, t, k)] == []; }
    }
  }

  // ---- every transition keeps the invariant and the map -------------------

  /** Growing or shrinking changes no key. */
  lemma ExpandKeeps<K(!new), V>(h: K -> nat, s: State<K, V>, size: nat)
    requires Inv(h, s)
    ensures Inv(h, Expand(s, size)) && Expand(s, size).used0 + Expand(s, size).used1 == s.used0 + s.used1
    ensures forall k :: Get(h, Expand(s, size), k) == Get(h, s, k)
  {
    assert PowerOfTwo(4) && PowerOfTwo(2) && PowerOfTwo(1);
    NextPowerOk(INITIAL_SIZE, size);
    EmptiesOk<K, V>(h, NextPower(INITIAL_SIZE, size));
    if s.used1 > 0 && !s.Rehashing() { TotalEmpty(s.ht1); }
  }

  /** One migration round keeps every key, and moves none twice. */
  lemma MigrateKeeps<K(!new), V>(h: K -> nat, s: State<K, V>)
    requires Inv(h, s) && s.Rehashing()
    ensures Inv(h, Migrate(h, s)) && Migrate(h, s).iterators == s.iterators
    ensures Migrate(h, s).used0 + Migrate(h, s).used1 == s.used0 + s.used1
    ensures forall k :: Get(h, Migrate(h, s), k) == Get(h, s, k)
  {
    if s.used0 == 0 {
      EmptyTableGet(h, s.ht0, s.used0);
    } else {
      var i := FirstNonEmpty(s.ht0, s.rehashidx);
      CursorInBounds(h, s);
      MoveBucket(h, s, i);
    }
  }

  /** The same, in terms of the map, with the bounds the code relies on. */
  lemma {:induction false} MigrateKeepsMap<K(!new), V>(h: K -> nat, s: State<K, V>, m: map<K, V>)
    requires Inv(h, s) && s.Rehashing() && Represents(h, s, m)
    ensures 0 <= s.rehashidx <= |s.ht0| && s.ht1 != []
    ensures Inv(h, Migrate(h, s)) && Represents(h, Migrate(h, s), m) && Migrate(h, s).iterators == s.iterators
    ensures s.used0 != 0 ==>
      FirstNonEmpty(s.ht0, s.rehashidx) < |s.ht0| && |s.ht0[FirstNonEmpty(s.ht0, s.rehashidx)]| <= s.used0
  {
    hide Get, TableOk, Disjoint;
    MigrateKeeps(h, s);
    if s.used0 != 0 {
      CursorInBounds(h, s);
      BucketOut(h, s.ht0, s.used0, FirstNonEmpty(s.ht0, s.rehashidx));
    }
  }

  /** Why the scan for a bucket that is not empty stops in time (dict.c:204-206). */
  lemma CursorInBounds<K(!new), V>(h: K -> nat, s: State<K, V>)
    requires Inv(h, s) && s.Rehashing() && s.used0 != 0
    ensures FirstNonEmpty(s.ht0, s.rehashidx) < |s.ht0|
  {
    TotalEmpty(s.ht0);
  }

  /** Clearing a bucket takes exactly its keys out of a table. */
  lemma BucketOut<K(!new), V>(h: K -> nat, t: Table<K, V>, used: nat, i: nat)
    requires i < |t| && TableOk(h, t, used)
    ensures |t[i]| <= used && TableOk(h, t[i := []], used - |t[i]|) && ChainOk(h, t[i], |t|, i)
    ensures forall k :: ChainGet(t[i], k).Some? ==> TableGet(h, t, k) == ChainGet(t[i], k)
    ensures forall k :: TableGet(h, t[i := []], k) == if ChainGet(t[i], k).Some? then None else TableGet(h, t, k)
  {
    var c, t' := t[i], t[i := []];
    TotalUpdate(t, i, []);
    assert ChainOk<K, V>(h, [], |t|, i);
    forall k ensures ChainGet(c, k).Some? ==> TableGet(h, t, k) == ChainGet(c, k)
             ensures TableGet(h, t', k) == if ChainGet(c, k).Some? then None else TableGet(h, t, k)
    {
      ChainGetIndex(c, k);
      var j := Slot(h, t, k);
      assert Slot(h, t', k) == j && t'[j] == if j == i then [] else t[j];
    }
  }

  lemma {:induction false} MoveBucket<K(!new), V>(h: K -> nat, s: State<K, V>, i: nat)
    requires Inv(h, s) && s.Rehashing() && s.used0 != 0 && i == FirstNonEmpty(s.ht0, s.rehashidx) < |s.ht0|
    ensures Inv(h, Migrate(h, s))
    ensures Migrate(h, s).used0 + Migrate(h, s).used1 == s.used0 + s.used1
    ensures forall k :: Get(h, Migrate(h, s), k) == Get(h, s, k)
  {
    hide TableOk, TableGet, ChainOk, ChainGet, PushAll;
    BucketOut(h, s.ht0, s.used0, i);
    PushAllOk(h, s.ht1, s.used1, s.ht0[i], |s.ht0|, i);
  }

  lemma StepKeeps<K(!new), V>(h: K -> nat, s: State<K, V>)
    requires Inv(h, s)
    ensures Inv(h, Step(h, s)) && Step(h, s).iterators == s.iterators
    ensures Step(h, s).used0 + Step(h, s).used1 == s.used0 + s.used1
    ensures forall k :: Get(h, Step(h, s), k) == Get(h, s, k)
  {
    if s.Rehashing() && s.iterators == 0 {
      MigrateKeeps(h, s);
    }
  }

  lemma {:induction false} InsertKeeps<K(!new), V>(h: K -> nat, s: State<K, V>, m: map<K, V>, k: K, v: V)
    requires Inv(h, s) && Represents(h, s, m) && s.ht0 != [] && Get(h, s, k) == None
    ensures Insert(h, s, k, v).iterators == s.iterators
    ensures Inv(h, Insert(h, s, k, v)) && Represents(h, Insert(h, s, k, v), m[k := v])
  {
    hide TableOk, TableGet, ChainGet, Push, TableSet, TableRemove;
    var s' := Insert(h, s, k, v);
    if s.Rehashing() {
      PushOk(h, s.ht1, s.used1, (k, v));
      forall x ensures TableGet(h, s'.ht1, x) == if x == k then Some(v) else TableGet(h, s.ht1, x) {
        PushGet(h, s.ht1, (k, v), x);
      }
    } else {
      PushOk(h, s.ht0, s.used0, (k, v));
      forall x ensures TableGet(h, s'.ht0, x) == if x == k then Some(v) else TableGet(h, s.ht0, x) {
        PushGet(h, s.ht0, (k, v), x);
      }
    }
    assert k !in m;
  }

  /** The same for one key, without the map. */
  lemma {:induction false} InsertGet<K(!new), V>(h: K -> nat, s: State<K, V>, x: K, v: V, k: K)
    requires Inv(h, s) && s.ht0 != [] && Get(h, s, x) == None
    ensures Inv(h, Insert(h, s, x, v)) && Insert(h, s, x, v).iterators == s.iterators
    ensures Get(h, Insert(h, s, x, v), k) == if k == x then Some(v) else Get(h, s, k)
  {
    var s' := Insert(h, s, x, v);
    var t, used := if s.Rehashing() then s.ht1 else s.ht0, if s.Rehashing() then s.used1 else s.used0;
    hide TableOk, TableGet, ChainGet, Push;
    PushOk(h, t, used, (x, v));
    forall y ensures TableGet(h, Push(h, t, (x, v)), y) == if y == x then Some(v) else TableGet(h, t, y) {
      PushGet(h, t, (x, v), y);
    }
  }

  lemma {:induction false} SetValueKeeps<K(!new), V>(h: K -> nat, s: State<K, V>, m: map<K, V>, k: K, v: V)
    requires Inv(h, s) && Represents(h, s, m) && Get(h, s, k).Some?
    ensures SetValue(h, s, k, v).iterators == s.iterators
    ensures Inv(h, SetValue(h, s, k, v)) && Represents(h, SetValue(h, s, k, v), m[k := v])
  {
    hide TableOk, TableGet, ChainGet, Push, TableSet, TableRemove;
    assert k in m && m[k := v].Keys == m.Keys;
    SameKeysSameSize(m, m[k := v]);
    if TableGet(h, s.ht0, k).Some? {
      TableSetOk(h, s.ht0, s.used0, k, v);
    } else {
      TableSetOk(h, s.ht1, s.used1, k, v);
    }
  }

  lemma {:induction false} SetValueGet<K(!new), V>(h: K -> nat, s: State<K, V>, x: K, v: V, k: K)
    requires Inv(h, s) && Get(h, s, x).Some?
    ensures Inv(h, SetValue(h, s, x, v)) && SetValue(h, s, x, v).iterators == s.iterators
    ensures Get(h, SetValue(h, s, x, v), k) == if k == x then Some(v) else Get(h, s, k)
  {
    hide TableOk, TableGet, ChainGet, TableSet;
    if TableGet(h, s.ht0, x).Some? {
      TableSetOk(h, s.ht0, s.used0, x, v);
    } else {
      TableSetOk(h, s.ht1, s.used1, x, v);
    }
  }

  lemma UnlinkGet<K(!new), V>(h: K -> nat, s: State<K, V>, x: K, k: K)
    requires Inv(h, s) && Get(h, s, x).Some?
    ensures Inv(h, Unlink(h, s, x)) && Unlink(h, s, x).iterators == s.iterators
    ensures Get(h, Unlink(h, s, x), k) == if k == x then None else Get(h, s, k)
  {
    hide TableOk, TableGet, ChainGet, TableRemove;
    if TableGet(h, s.ht0, x).Some? {
      TableRemoveOk(h, s.ht0, s.used0, x);
    } else {
      TableRemoveOk(h, s.ht1, s.used1, x);
    }
  }

  lemma SameKeysSameSize<K, V>(m: map<K, V>, m': map<K, V>)
    requires m.Keys == m'.Keys
    ensures |m| == |m'|
  {
    assert |m.Keys| == |m'.Keys|;
  }

  lemma UnlinkKeeps<K(!new), V>(h: K -> nat, s: State<K, V>, m: map<K, V>, k: K)
    requires Inv(h, s) && Represents(h, s, m) && Get(h, s, k).Some?
    ensures Unlink(h, s, k).iterators == s.iterators
    ensures Inv(h, Unlink(h, s, k)) && Represents(h, Unlink(h, s, k), m - {k})
  {
    hide TableOk, TableGet, ChainGet, Push, TableSet, TableRemove;
    assert k in m && (m - {k}).Keys == m.Keys - {k};
    assert |m - {k}| == |(m - {k}).Keys| == |m| - 1;
    if TableGet(h, s.ht0, k).Some? {
      TableRemoveOk(h, s.ht0, s.used0, k);
    } else {
      TableRemoveOk(h, s.ht1, s.used1, k);
    }
  }

  /** What dictAdd does before it looks for the key: one migration round, then
      an expansion when it is due. */
  ghost function Prepare<K(!new), V>(h: K -> nat, s: State<K, V>, can: bool): (r: State<K, V>)
    requires Inv(h, s)
    ensures Inv(h, r) && Ready(r) && r.ht0 != [] && r.iterators == s.iterators
    ensures r.used0 + r.used1 == s.used0 + s.used1
    ensures forall k :: Get(h, r, k) == Get(h, s, k)
  {
    StepKeeps(h, s);
    var s1 := Step(h, s);
    ExpandKeeps(h, s1, INITIAL_SIZE);
    ExpandKeeps(h, s1, (if |s1.ht0| > s1.used0 then |s1.ht0| else s1.used0) * 2);
    ExpandIfNeeded(s1, can)
  }

  /** dictAdd. */
  ghost function Add<K(!new), V>(h: K -> nat, s: State<K, V>, k: K, v: V, can: bool): (r: State<K, V>)
    requires Inv(h, s)
  {
    var p := Prepare(h, s, can);
    if Get(h, s, k).Some? then p else Insert(h, p, k, v)
  }

  /** dictReplace: dictAdd, and on failure dictFind and an overwrite. */
  ghost function Replace<K(!new), V>(h: K -> nat, s: State<K, V>, k: K, v: V, can: bool): (r: State<K, V>)
    requires Inv(h, s)
  {
    var p := Prepare(h, s, can);
    if Get(h, s, k).Some? then SetValue(h, Step(h, p), k, v) else Insert(h, p, k, v)
  }

  /** dictFind. */
  ghost function Find<K(!new), V>(h: K -> nat, s: State<K, V>): (r: State<K, V>)
    requires Inv(h, s)
  {
    if s.ht0 == [] then s else Step(h, s)
  }

  /** dictGenericDelete. */
  ghost function Delete<K(!new), V>(h: K -> nat, s: State<K, V>, k: K): (r: State<K, V>)
    requires Inv(h, s)
  {
    var s1 := Find(h, s);
    if Get(h, s, k).Some? then Unlink(h, s1, k) else s1
  }

  lemma {:induction false} AddKeeps<K(!new), V>(h: K -> nat, s: State<K, V>, m: map<K, V>, k: K, v: V, can: bool)
    requires Inv(h, s) && Represents(h, s, m)
    ensures Inv(h, Add(h, s, k, v, can)) && Add(h, s, k, v, can).iterators == s.iterators
    ensures Represents(h, Add(h, s, k, v, can), if k in m then m else m[k := v])
  {
    hide Inv, Get, Insert;
    var p := Prepare(h, s, can);
    assert Represents(h, p, m);
    if k !in m {
      InsertKeeps(h, p, m, k, v);
    }
  }

  lemma {:induction false} ReplaceKeeps<K(!new), V>(h: K -> nat, s: State<K, V>, m: map<K, V>, k: K, v: V, can: bool)
    requires Inv(h, s) && Represents(h, s, m)
    ensures Inv(h, Replace(h, s, k, v, can)) && Replace(h, s, k, v, can).iterators == s.iterators
    ensures Represents(h, Replace(h, s, k, v, can), m[k := v])
  {
    hide Inv, Get, Insert, Step, SetValue;
    var p := Prepare(h, s, can);
    assert Represents(h, p, m);
    if k !in m {
      InsertKeeps(h, p, m, k, v);
    } else {
      StepKeeps(h, p);
      assert Represents(h, Step(h, p), m);
      SetValueKeeps(h, Step(h, p), m, k, v);
    }
  }

  lemma {:induction false} FindKeeps<K(!new), V>(h: K -> nat, s: State<K, V>, m: map<K, V>)
    requires Inv(h, s) && Represents(h, s, m)
    ensures Inv(h, Find(h, s)) && Represents(h, Find(h, s), m) && Find(h, s).iterators == s.iterators
  {
    StepKeeps(h, s);
  }

  lemma {:induction false} DeleteKeeps<K(!new), V>(h: K -> nat, s: State<K, V>, m: map<K, V>, k: K)
    requires Inv(h, s) && Represents(h, s, m)
    ensures Inv(h, Delete(h, s, k)) && Delete(h, s, k).iterators == s.iterators
    ensures Represents(h, Delete(h, s, k), m - {k})
  {
    hide Inv, Get, Unlink;
    FindKeeps(h, s, m);
    if k in m {
      UnlinkKeeps(h, Find(h, s), m, k);
    } else {
      assert m - {k} == m;
    }
  }

  /** `n` rounds of migration, fewer when the new table takes over. */
  ghost function Migrations<K(!new), V>(h: K -> nat, s: State<K, V>, n: nat): (r: State<K, V>)
    requires Inv(h, s)
    ensures Inv(h, r) && r.iterators == s.iterators && r.used0 + r.used1 == s.used0 + s.used1
    ensures forall k :: Get(h, r, k) == Get(h, s, k)
    decreases n
  {
    if n == 0 || !s.Rehashing() then s
    else
      MigrateKeeps(h, s);
      Migrations(h, Migrate(h, s), n - 1)
  }

  /** The parts of the invariant the operations rely on for their accesses. */
  lemma Bounds<K(!new), V>(h: K -> nat, s: State<K, V>)
    requires Inv(h, s)
    ensures Ready(s) && (s.Rehashing() ==> s.ht0 != [] && s.ht1 != []) && (!s.Rehashing() ==> s.ht1 == [])
    ensures forall k :: TableGet(h, s.ht0, k).Some? ==> TableGet(h, s.ht1, k) == None
    ensures |s.ht0| == 0 ==> s.used0 == 0 && forall k :: Get(h, s, k) == None
  {
    if |s.ht0| == 0 { EmptyTableGet(h, s.ht0, s.used0); }
  }

  lemma ExpandHasTable<K, V>(s: State<K, V>, size: nat)
    ensures s.ht0 != [] ==> Expand(s, size).ht0 == s.ht0
    ensures !s.Rehashing() && s.used0 <= size ==> Expand(s, size).ht0 != []
  {
  }

  /** Growing a dictionary that is due, or creating its first table, cannot fail. */
  lemma ExpandIfNeededKeeps<K(!new), V>(h: K -> nat, s: State<K, V>, m: map<K, V>, can: bool)
    requires Inv(h, s) && Represents(h, s, m)
    ensures Inv(h, ExpandIfNeeded(s, can)) && Represents(h, ExpandIfNeeded(s, can), m)
    ensures ExpandIfNeeded(s, can).ht0 != []
    ensures |s.ht0| == 0 && !s.Rehashing() ==> s.used0 <= INITIAL_SIZE
  {
    hide Inv, Get, Expand;
    Bounds(h, s);
    ExpandHasTable(s, INITIAL_SIZE);
    ExpandHasTable(s, (if |s.ht0| > s.used0 then |s.ht0| else s.used0) * 2);
    ExpandKeeps(h, s, INITIAL_SIZE);
    ExpandKeeps(h, s, (if |s.ht0| > s.used0 then |s.ht0| else s.used0) * 2);
  }

  lemma {:induction false} StepKeepsMap<K(!new), V>(h: K -> nat, s: State<K, V>, m: map<K, V>)
    requires Inv(h, s) && Represents(h, s, m)
    ensures Ready(s) && Inv(h, Step(h, s)) && Represents(h, Step(h, s), m)
  {
    Bounds(h, s);
    hide Inv, Get;
    StepKeeps(h, s);
  }
}
