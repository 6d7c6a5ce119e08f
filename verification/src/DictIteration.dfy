/**
Safe iterators (dict.c:419-475). While one runs, `iterators` is positive and no
bucket migrates; the caller may look up, add and overwrite keys, delete the key
it was given last, and so may start an expansion. An iterator names the entries
it points to by their keys.
*/
module DictIteration {
  import opened Common
  import opened DictModel

  /** `dictIterator`: the table and bucket it stands in, the entry returned last
      and the saved next entry. */
  datatype Iter<K> = Iter(table: nat, index: int, entry: Option<K>, next: Option<K>)

  function Begin<K>(): Iter<K> {
    Iter(0, -1, None, None)
  }

  function Current<K, V>(s: State<K, V>, table: nat): Table<K, V> {
    if table == 0 then s.ht0 else s.ht1
  }

  /** The part of a chain that starts at the entry of `k`. */
  function From<K(==), V>(c: Chain<K, V>, k: K): Chain<K, V> {
    if c == [] || c[0].0 == k then c else From(c[1..], k)
  }

  /** The iterator at the head of what is left of a chain. */
  function AtHead<K, V>(table: nat, index: int, c: Chain<K, V>): Iter<K>
    requires c != []
  {
    Iter(table, index, Some(c[0].0), if |c| > 1 then Some(c[1].0) else None)
  }

  /** The first entry at or after bucket `i`; None at the end. */
  function Seek<K, V>(s: State<K, V>, table: nat, i: nat): Iter<K>
    requires i <= |Current(s, table)|
  {
    var t: Table<K, V> := Current(s, table);
    var j := FirstNonEmpty(t, i);
    if j < |t| then AtHead(table, j, t[j])
    else if table == 0 && s.Rehashing() then
      var l := FirstNonEmpty(s.ht1, 0);
      if l < |s.ht1| then AtHead(1, l, s.ht1[l]) else Iter(1, l, None, None)
    else Iter(table, j, None, None)
  }

  /** dictNext; the entry found is the `entry` of the result. */
  function Next<K(==), V>(s: State<K, V>, it: Iter<K>): Iter<K>
    requires it.table <= 1 && -1 <= it.index < |Current(s, it.table)|
    requires it.entry.Some? && it.next.Some? ==>
      it.index >= 0 && ChainGet(Current(s, it.table)[it.index], it.next.value).Some?
  {
    if it.entry.Some? && it.next.Some? then
      FromStarts(Current(s, it.table)[it.index], it.next.value);
      AtHead(it.table, it.index, From(Current(s, it.table)[it.index], it.next.value))
    else Seek(s, it.table, it.index + 1)
  }

  // ---- what is still to come ----------------------------------------------

  /** `k` is in bucket `i` or later, or in the table to be visited after. */
  ghost predicate Later<K, V>(h: K -> nat, s: State<K, V>, table: nat, i: int, k: K) {
    var t: Table<K, V> := Current(s, table);
    || (TableGet(h, t, k).Some? && Slot(h, t, k) >= i)
    || (table == 0 && TableGet(h, s.ht1, k).Some?)
  }

  ghost predicate Pending<K, V>(h: K -> nat, s: State<K, V>, it: Iter<K>, k: K) {
    || (it.next.Some? && 0 <= it.index < |Current(s, it.table)|
        && ChainGet(From(Current(s, it.table)[it.index], it.next.value), k).Some?)
    || Later(h, s, it.table, it.index + 1, k)
  }

  /** An iterator that stands at an entry it has returned. */
  ghost predicate Standing<K, V>(s: State<K, V>, it: Iter<K>) {
    && it.table <= 1 && (it.table == 1 ==> s.Rehashing())
    && it.entry.Some? && 0 <= it.index < |Current(s, it.table)|
    && (it.next.Some? ==>
          it.next != it.entry && ChainGet(Current(s, it.table)[it.index], it.next.value).Some?)
  }

  lemma {:induction false} FromStarts<K, V>(c: Chain<K, V>, k: K)
    requires ChainGet(c, k).Some?
    ensures From(c, k) != [] && From(c, k)[0].0 == k
  {
    if c[0].0 != k {
      FromStarts(c[1..], k);
    }
  }

  /** A suffix of a good chain is good, and its entries are entries of the chain. */
  lemma {:induction false} FromOk<K(!new), V>(h: K -> nat, c: Chain<K, V>, n: nat, i: nat, k: K)
    requires n > 0 && ChainOk(h, c, n, i)
    ensures ChainOk(h, From(c, k), n, i)
    ensures forall x :: ChainGet(From(c, k), x).Some? ==> ChainGet(c, x).Some?
  {
    if c != [] && c[0].0 != k {
      FromOk(h, c[1..], n, i, k);
      forall x | ChainGet(From(c, k), x).Some? ensures ChainGet(c, x).Some? {
        assert ChainGet(c[1..], x).Some?;
      }
    }
  }

  /** After its head, a good chain goes on from its second entry. */
  lemma {:induction false} Tail<K(!new), V>(h: K -> nat, c: Chain<K, V>, n: nat, i: nat)
    requires n > 0 && ChainOk(h, c, n, i) && c != []
    ensures |c| > 1 ==> From(c, c[1].0) == c[1..] && c[1].0 != c[0].0 && ChainGet(c, c[1].0).Some?
    ensures ChainGet(c[1..], c[0].0) == None
    ensures forall x :: x != c[0].0 ==> ChainGet(c[1..], x) == ChainGet(c, x)
  {
    ChainGetIndex(c[1..], c[0].0);
    if |c| > 1 {
      assert c[0].0 != c[1].0 && c[1..][0].0 == c[1].0;
      assert From(c[1..], c[1].0) == c[1..];
    }
  }

  lemma {:induction false} FromFrom<K(!new), V>(h: K -> nat, c: Chain<K, V>, n: nat, i: nat, k: K, l: K)
    requires n > 0 && ChainOk(h, c, n, i) && ChainGet(From(c, k), l).Some?
    ensures From(From(c, k), l) == From(c, l)
  {
    if c != [] && c[0].0 != k {
      FromOk(h, c[1..], n, i, k);
      ChainGetIndex(c[1..], l);
      assert ChainGet(c[1..], l).Some?;
      assert c[0].0 != l;
      FromFrom(h, c[1..], n, i, k, l);
    }
  }

  /** What stepping onto the entry of `x` does to the keys still to come. */
  lemma AtHeadStep<K(!new), V>(h: K -> nat, s: State<K, V>, table: nat, j: nat, x: K, k: K)
    requires Inv(h, s) && table <= 1 && (table == 1 ==> s.Rehashing()) && j < |Current(s, table)|
    requires ChainGet(Current(s, table)[j], x).Some?
    ensures From(Current(s, table)[j], x) != []
    ensures var c := From(Current(s, table)[j], x);
            var r := AtHead(table, j, c);
            && Standing(s, r) && r.entry == Some(x) && Get(h, s, x).Some?
            && (k == x ==> !Pending(h, s, r, k))
            && (k != x ==> (Pending(h, s, r, k) <==> ChainGet(c, k).Some? || Later(h, s, table, j + 1, k)))
  {
    var t: Table<K, V> := Current(s, table);
    var b := t[j];
    var c := From(b, x);
    FromStarts(b, x);
    FromOk(h, b, |t|, j, x);
    InBucket(h, t, if table == 0 then s.used0 else s.used1, j, x);
    Tail(h, c, |t|, j);
    if |c| > 1 {
      FromFrom(h, b, |t|, j, x, c[1].0);
      assert ChainGet(b, c[1].0).Some?;
    }
    hide Inv, ChainOk, TableOk, Disjoint, ChainGet, From;
    PresentOnce(h, s, table, x);
  }

  /** A key in bucket `j` is a key of the table, with slot `j`. */
  lemma InBucket<K(!new), V>(h: K -> nat, t: Table<K, V>, used: nat, j: nat, x: K)
    requires TableOk(h, t, used) && j < |t| && ChainGet(t[j], x).Some?
    ensures Slot(h, t, x) == j && TableGet(h, t, x).Some?
  {
    ChainGetIndex(t[j], x);
    assert ChainOk(h, t[j], |t|, j);
  }

  lemma PresentOnce<K(!new), V>(h: K -> nat, s: State<K, V>, table: nat, x: K)
    requires Inv(h, s) && table <= 1 && TableGet(h, Current(s, table), x).Some?
    ensures Get(h, s, x).Some? && (table == 0 ==> TableGet(h, s.ht1, x) == None)
  {
  }

  /** Buckets skipped because they are empty hold no key. */
  lemma SkippedEmpty<K(!new), V>(h: K -> nat, t: Table<K, V>, i: nat, k: K)
    requires i <= |t| && TableGet(h, t, k).Some? && Slot(h, t, k) >= i
    ensures FirstNonEmpty(t, i) < |t| && Slot(h, t, k) >= FirstNonEmpty(t, i)
  {
    assert t[Slot(h, t, k)] != [];
  }

  /** Reaching the first entry of bucket `j`, the first non-empty one from `i` on. */
  lemma SeekFound<K(!new), V>(h: K -> nat, s: State<K, V>, table: nat, i: nat, k: K)
    requires Inv(h, s) && table <= 1 && (table == 1 ==> s.Rehashing()) && i <= |Current(s, table)|
    requires FirstNonEmpty(Current(s, table), i) < |Current(s, table)|
    ensures var j := FirstNonEmpty(Current(s, table), i);
            var r := AtHead(table, j, Current(s, table)[j]);
            && Standing(s, r) && Get(h, s, r.entry.value).Some?
            && (r.entry == Some(k) ==> !Pending(h, s, r, k) && Later(h, s, table, i, k))
            && (r.entry != Some(k) ==> (Pending(h, s, r, k) <==> Later(h, s, table, i, k)))
  {
    var t: Table<K, V> := Current(s, table);
    var j := FirstNonEmpty(t, i);
    var x := t[j][0].0;
    assert From(t[j], x) == t[j] && ChainGet(t[j], x).Some?;
    var used := if table == 0 then s.used0 else s.used1;
    AtHeadStep(h, s, table, j, x, k);
    InBucket(h, t, used, j, x);
    if ChainGet(t[j], k).Some? { InBucket(h, t, used, j, k); }
    hide Inv, From, FirstNonEmpty;
    if TableGet(h, t, k).Some? && Slot(h, t, k) >= i { SkippedEmpty(h, t, i, k); }
  }

  /** What moving to the next bucket does to the keys still to come. */
  lemma {:induction false} SeekStep<K(!new), V>(h: K -> nat, s: State<K, V>, table: nat, i: nat, k: K)
    requires Inv(h, s) && table <= 1 && (table == 1 ==> s.Rehashing()) && i <= |Current(s, table)|
    ensures var r := Seek(s, table, i);
            && (r.entry.Some? ==> Standing(s, r) && Get(h, s, r.entry.value).Some?)
            && (r.entry == Some(k) ==> !Pending(h, s, r, k) && Later(h, s, table, i, k))
            && (r.entry.Some? && r.entry != Some(k) ==> (Pending(h, s, r, k) <==> Later(h, s, table, i, k)))
            && (r.entry == None ==> !Later(h, s, table, i, k))
  {
    hide Inv, Pending, Standing, Get, ChainGet;
    var t: Table<K, V> := Current(s, table);
    var j := FirstNonEmpty(t, i);
    if j < |t| {
      SeekFound(h, s, table, i, k);
    } else {
      if TableGet(h, t, k).Some? && Slot(h, t, k) >= i { SkippedEmpty(h, t, i, k); }
      OtherTable(h, s, k);
      if table == 0 && s.Rehashing() {
        if TableGet(h, s.ht1, k).Some? && Slot(h, s.ht1, k) >= 0 { SkippedEmpty(h, s.ht1, 0, k); }
        if FirstNonEmpty(s.ht1, 0) < |s.ht1| {
          SeekFound(h, s, 1, 0, k);
        }
      }
    }
  }

  lemma OtherTable<K(!new), V>(h: K -> nat, s: State<K, V>, k: K)
    requires Inv(h, s)
    ensures TableGet(h, s.ht1, k).Some? ==> s.Rehashing() && s.ht1 != []
  {
  }

  /** dictNext: a key still to come is either the one returned, and then no longer
      to come, or it stays so; nothing else is returned; at the end nothing is left. */
  lemma {:induction false} NextStep<K(!new), V>(h: K -> nat, s: State<K, V>, it: Iter<K>, k: K)
    requires Inv(h, s) && (Standing(s, it) || it == Begin())
    ensures -1 <= it.index < |Current(s, it.table)| || it == Begin()
    ensures var r := if it == Begin() then Seek(s, 0, 0) else Next(s, it);
            && (r.entry.Some? ==> Standing(s, r) && Get(h, s, r.entry.value).Some?)
            && (r.entry == Some(k) ==> !Pending(h, s, r, k) && Pending(h, s, it, k))
            && (r.entry.Some? && r.entry != Some(k) ==> (Pending(h, s, r, k) <==> Pending(h, s, it, k)))
            && (r.entry == None ==> !Pending(h, s, it, k))
  {
    if it == Begin() {
      SeekStep(h, s, 0, 0, k);
    } else if it.next.Some? {
      var c := Current(s, it.table)[it.index];
      AtHeadStep(h, s, it.table, it.index, it.next.value, k);
      FromStarts(c, it.next.value);
      assert ChainGet(From(c, it.next.value), it.next.value).Some?;
    } else {
      SeekStep(h, s, it.table, it.index + 1, k);
    }
  }

  // ---- what the operations do to the keys still to come -------------------

  lemma {:induction false} FromSet<K, V>(c: Chain<K, V>, x: K, v: V, n: K, k: K)
    ensures ChainGet(From(ChainSet(c, x, v), n), k).Some? == ChainGet(From(c, n), k).Some?
    ensures ChainGet(ChainSet(c, x, v), k).Some? == ChainGet(c, k).Some?
  {
    if c != [] {
      var d := ChainSet(c, x, v);
      if c[0].0 == x {
        assert d[1..] == c[1..];
      } else {
        assert d[1..] == ChainSet(c[1..], x, v);
        FromSet(c[1..], x, v, n, k);
      }
    }
  }

  lemma {:induction false} FromRemove<K, V>(c: Chain<K, V>, x: K, n: K, k: K)
    requires n != x && k != x
    ensures ChainGet(From(ChainRemove(c, x), n), k).Some? == ChainGet(From(c, n), k).Some?
    ensures ChainGet(ChainRemove(c, x), k).Some? == ChainGet(c, k).Some?
  {
    if c != [] && c[0].0 != x {
      var d := ChainRemove(c, x);
      assert d[1..] == ChainRemove(c[1..], x);
      FromRemove(c[1..], x, n, k);
    }
  }

  /** The relation every change below establishes between the tables before and
      after: it concerns the keys other than `x`, or all of them. */
  ghost predicate SameOrder<K(!new), V>(h: K -> nat, t: Table<K, V>, t': Table<K, V>, x: Option<K>) {
    && |t'| == |t|
    && (forall k :: Some(k) != x ==> TableGet(h, t', k).Some? == TableGet(h, t, k).Some?)
    && (forall i, n, k {:trigger ChainGet(From(t'[i], n), k)} :: 0 <= i < |t| && Some(n) != x && Some(k) != x ==>
          ChainGet(From(t'[i], n), k).Some? == ChainGet(From(t[i], n), k).Some?)
    && (forall i, n {:trigger ChainGet(t'[i], n)} :: 0 <= i < |t| && Some(n) != x ==>
          ChainGet(t'[i], n).Some? == ChainGet(t[i], n).Some?)
  }

  /** Changes in that relation leave the iterator standing, and the keys still to
      come the same. */
  lemma SameOrderPending<K(!new), V>(h: K -> nat, s: State<K, V>, s': State<K, V>, it: Iter<K>, x: Option<K>, k: K)
    requires SameOrder(h, s.ht0, s'.ht0, x) && SameOrder(h, s.ht1, s'.ht1, x)
    requires s'.Rehashing() == s.Rehashing()
    requires Standing(s, it) && (it.next.Some? ==> it.next != x)
    ensures Standing(s', it) && (Some(k) != x ==> (Pending(h, s', it, k) <==> Pending(h, s, it, k)))
  {
    hide ChainGet, From, TableGet;
  }

  lemma SameOrderSelf<K(!new), V>(h: K -> nat, t: Table<K, V>, x: Option<K>)
    ensures SameOrder(h, t, t, x)
  {
  }

  /** It is enough to look at the one bucket that changed. */
  lemma BucketSameOrder<K(!new), V>(h: K -> nat, t: Table<K, V>, j: nat, d: Chain<K, V>, x: Option<K>)
    requires j < |t|
    requires forall k :: Some(k) != x ==> ChainGet(d, k).Some? == ChainGet(t[j], k).Some?
    requires forall n, k :: Some(n) != x && Some(k) != x ==>
      ChainGet(From(d, n), k).Some? == ChainGet(From(t[j], n), k).Some?
    ensures SameOrder(h, t, t[j := d], x)
  {
    hide ChainGet, From;
    var t' := t[j := d];
    forall k | Some(k) != x ensures TableGet(h, t', k).Some? == TableGet(h, t, k).Some? {
      assert Slot(h, t', k) == Slot(h, t, k);
    }
  }

  lemma PushSameOrder<K(!new), V>(h: K -> nat, t: Table<K, V>, x: K, v: V)
    requires t != []
    ensures SameOrder(h, t, Push(h, t, (x, v)), Some(x))
  {
    var c: Chain<K, V> := t[Slot(h, t, x)];
    var d: Chain<K, V> := [(x, v)] + c;
    assert d[1..] == c && d[0].0 == x;
    assert forall n :: n != x ==> From(d, n) == From(c, n);
    assert forall k :: k != x ==> ChainGet(d, k) == ChainGet(c, k);
    BucketSameOrder(h, t, Slot(h, t, x), d, Some(x));
  }

  lemma SetSameOrder<K(!new), V>(h: K -> nat, t: Table<K, V>, x: K, v: V)
    ensures SameOrder(h, t, TableSet(h, t, x, v), None)
  {
    if t != [] {
      var c := t[Slot(h, t, x)];
      forall n, k ensures ChainGet(From(ChainSet(c, x, v), n), k).Some? == ChainGet(From(c, n), k).Some? {
        FromSet(c, x, v, n, k);
      }
      forall k ensures ChainGet(ChainSet(c, x, v), k).Some? == ChainGet(c, k).Some? {
        FromSet(c, x, v, k, k);
      }
      BucketSameOrder(h, t, Slot(h, t, x), ChainSet(c, x, v), None);
    }
  }

  lemma RemoveSameOrder<K(!new), V>(h: K -> nat, t: Table<K, V>, x: K)
    ensures SameOrder(h, t, TableRemove(h, t, x), Some(x))
  {
    if t != [] {
      var c := t[Slot(h, t, x)];
      forall n, k | n != x && k != x
        ensures ChainGet(From(ChainRemove(c, x), n), k).Some? == ChainGet(From(c, n), k).Some?
      {
        FromRemove(c, x, n, k);
      }
      forall k | k != x ensures ChainGet(ChainRemove(c, x), k).Some? == ChainGet(c, k).Some? {
        FromRemove(c, x, k, k);
      }
      BucketSameOrder(h, t, Slot(h, t, x), ChainRemove(c, x), Some(x));
    }
  }

  // ---- whole iterations ---------------------------------------------------

  /** What the owner of a running safe iterator may do between two calls of dictNext. */
  datatype Action<K, V> =
    | DoFind | DoAdd(k: K, v: V, can: bool) | DoReplace(k: K, v: V, can: bool)
    | DoDeleteReturned | DoResize(can: bool) | DoNext

  /** The dictionary, the iterator, the keys returned so far, the keys deleted so
      far, and whether dictNext has returned NULL. */
  datatype Config<K, V> = Config(s: State<K, V>, it: Iter<K>, out: seq<K>, gone: set<K>, done: bool)

  /** The first call of dictNext, which registers the iterator. */
  ghost function Register<K(!new), V>(s: State<K, V>): Config<K, V> {
    Returned(Config(s.(iterators := s.iterators + 1), Begin(), [], {}, false), Seek(s, 0, 0))
  }

  ghost function Returned<K(!new), V>(c: Config<K, V>, it: Iter<K>): Config<K, V> {
    if it.entry.Some? then c.(it := it, out := c.out + [it.entry.value]) else c.(it := it, done := true)
  }

  ghost predicate Running<K(!new), V>(h: K -> nat, c: Config<K, V>) {
    && Inv(h, c.s) && c.s.iterators > 0
    && (c.done || (Standing(c.s, c.it) && c.out != [] && c.it.entry == Some(c.out[|c.out| - 1])))
  }

  ghost function Act<K(!new), V>(h: K -> nat, c: Config<K, V>, a: Action<K, V>): Config<K, V>
    requires Running(h, c) && !c.done
  {
    match a
    case DoFind => c.(s := Find(h, c.s))
    case DoAdd(k, v, can) => c.(s := Add(h, c.s, k, v, can))
    case DoReplace(k, v, can) => c.(s := Replace(h, c.s, k, v, can))
    case DoDeleteReturned =>
      var k := c.out[|c.out| - 1];
      c.(s := Delete(h, c.s, k), gone := c.gone + {k})
    case DoResize(can) => c.(s := Resize(c.s, can))
    case DoNext => Returned(c, Next(c.s, c.it))
  }

  /** The promise for one key present at the start: while it is not deleted it is
      there, and it has come out exactly once or is still to come. */
  ghost predicate Tracked<K(!new), V>(h: K -> nat, c: Config<K, V>, k: K) {
    k !in c.gone ==>
      && Get(h, c.s, k).Some?
      && (if k in c.out then multiset(c.out)[k] == 1 && !(!c.done && Pending(h, c.s, c.it, k))
          else !c.done && Pending(h, c.s, c.it, k))
  }

  /** Counting the iterator changes neither table. */
  lemma Registered<K(!new), V>(h: K -> nat, s: State<K, V>, n: nat, k: K)
    requires Inv(h, s)
    ensures var s1 := s.(iterators := n);
            && Inv(h, s1) && Get(h, s1, k) == Get(h, s, k) && Seek(s1, 0, 0) == Seek(s, 0, 0)
            && (Get(h, s, k).Some? ==> Pending(h, s1, Begin(), k))
  {
  }

  lemma {:induction false} RegisterTracks<K(!new), V>(h: K -> nat, s: State<K, V>, k: K)
    requires Inv(h, s)
    ensures Running(h, Register(s)) && (Get(h, s, k).Some? ==> Tracked(h, Register(s), k))
  {
    hide Inv, Seek, Standing, Get, Pending;
    Registered(h, s, s.iterators + 1, k);
    NextStep(h, s.(iterators := s.iterators + 1), Begin(), k);
  }

  /** An expansion begun during the iteration: the old table is as it was. */
  lemma ExpandPending<K(!new), V>(h: K -> nat, s: State<K, V>, size: nat, it: Iter<K>, k: K)
    requires Inv(h, s) && Standing(s, it)
    ensures Standing(Expand(s, size), it) && (Pending(h, Expand(s, size), it, k) <==> Pending(h, s, it, k))
  {
    var n := NextPower(INITIAL_SIZE, size);
    if !s.Rehashing() && s.used0 <= size {
      assert TableGet(h, Expand(s, size).ht1, k) == None by {
        assert Empties<K, V>(n)[Slot(h, Empties<K, V>(n), k)] == [];
      }
      assert TableGet(h, s.ht1, k) == None;
      hide Inv, Get, ChainGet, From;
    }
  }

  /** dictAdd while the iterator runs: no migration, perhaps an expansion, and a
      new entry that no saved pointer refers to. */
  lemma PreparePending<K(!new), V>(h: K -> nat, s: State<K, V>, it: Iter<K>, k: K, can: bool)
    requires Inv(h, s) && s.iterators > 0 && Standing(s, it)
    ensures Standing(Prepare(h, s, can), it)
    ensures Pending(h, Prepare(h, s, can), it, k) <==> Pending(h, s, it, k)
  {
    Bounds(h, s);
    assert Step(h, s) == s;
    ExpandPending(h, s, INITIAL_SIZE, it, k);
    ExpandPending(h, s, (if |s.ht0| > s.used0 then |s.ht0| else s.used0) * 2, it, k);
    hide Inv, Get, Expand, Standing, Pending;
  }

  lemma InsertPending<K(!new), V>(h: K -> nat, s: State<K, V>, it: Iter<K>, x: K, v: V, k: K)
    requires Inv(h, s) && Standing(s, it) && s.ht0 != [] && Get(h, s, x) == None
    ensures Ready(s)
    ensures Standing(Insert(h, s, x, v), it)
    ensures k != x ==> (Pending(h, Insert(h, s, x, v), it, k) <==> Pending(h, s, it, k))
  {
    Bounds(h, s);
    NextPresent(h, s, it);
    if s.Rehashing() {
      PushSameOrder(h, s.ht1, x, v);
    } else {
      PushSameOrder(h, s.ht0, x, v);
    }
    SameOrderSelf(h, s.ht0, Some(x));
    SameOrderSelf(h, s.ht1, Some(x));
    hide Inv, Get, Standing, Pending, SameOrder, Push;
    SameOrderPending(h, s, Insert(h, s, x, v), it, Some(x), k);
  }

  /** The saved next entry is in the dictionary. */
  lemma NextPresent<K(!new), V>(h: K -> nat, s: State<K, V>, it: Iter<K>)
    requires Inv(h, s) && Standing(s, it)
    ensures it.next.Some? ==> Get(h, s, it.next.value).Some?
  {
    if it.next.Some? {
      InBucket(h, Current(s, it.table), if it.table == 0 then s.used0 else s.used1, it.index, it.next.value);
    }
  }

  lemma UnlinkPending<K(!new), V>(h: K -> nat, s: State<K, V>, it: Iter<K>, x: K, k: K)
    requires Inv(h, s) && Standing(s, it) && it.entry == Some(x)
    ensures Standing(Unlink(h, s, x), it)
    ensures k != x ==> (Pending(h, Unlink(h, s, x), it, k) <==> Pending(h, s, it, k))
  {
    RemoveSameOrder(h, s.ht0, x);
    RemoveSameOrder(h, s.ht1, x);
    SameOrderSelf(h, s.ht0, Some(x));
    SameOrderSelf(h, s.ht1, Some(x));
    assert it.next != Some(x);
    hide Inv, Standing, Pending, SameOrder, TableRemove;
    SameOrderPending(h, s, Unlink(h, s, x), it, Some(x), k);
  }

  lemma SetValuePending<K(!new), V>(h: K -> nat, s: State<K, V>, it: Iter<K>, x: K, v: V, k: K)
    requires Standing(s, it)
    ensures Standing(SetValue(h, s, x, v), it)
    ensures Pending(h, SetValue(h, s, x, v), it, k) <==> Pending(h, s, it, k)
  {
    SetSameOrder(h, s.ht0, x, v);
    SetSameOrder(h, s.ht1, x, v);
    SameOrderSelf<K, V>(h, s.ht0, None);
    SameOrderSelf<K, V>(h, s.ht1, None);
    hide Inv, Standing, Pending, SameOrder, TableSet;
    SameOrderPending(h, s, SetValue(h, s, x, v), it, None, k);
  }

  // ---- every action keeps the promise -------------------------------------

  lemma {:induction false} AddTracks<K(!new), V>(h: K -> nat, c: Config<K, V>, x: K, v: V, can: bool, k: K)
    requires Running(h, c) && !c.done
    ensures var c' := c.(s := Add(h, c.s, x, v, can));
            Running(h, c') && (Tracked(h, c, k) ==> Tracked(h, c', k)) && c'.s.iterators == c.s.iterators
  {
    hide Inv, Standing, Pending, Insert, Get;
    var p := Prepare(h, c.s, can);
    PreparePending(h, c.s, c.it, k, can);
    assert Get(h, p, x) == Get(h, c.s, x) && Get(h, p, k) == Get(h, c.s, k);
    if Get(h, c.s, x) == None {
      InsertGet(h, p, x, v, k);
      InsertPending(h, p, c.it, x, v, k);
    }
  }

  lemma {:induction false} ReplaceTracks<K(!new), V>(h: K -> nat, c: Config<K, V>, x: K, v: V, can: bool, k: K)
    requires Running(h, c) && !c.done
    ensures var c' := c.(s := Replace(h, c.s, x, v, can));
            Running(h, c') && (Tracked(h, c, k) ==> Tracked(h, c', k)) && c'.s.iterators == c.s.iterators
  {
    hide Inv, Standing, Pending, Insert, SetValue, Get;
    var p := Prepare(h, c.s, can);
    PreparePending(h, c.s, c.it, k, can);
    assert Get(h, p, x) == Get(h, c.s, x) && Get(h, p, k) == Get(h, c.s, k);
    if Get(h, c.s, x) == None {
      InsertGet(h, p, x, v, k);
      InsertPending(h, p, c.it, x, v, k);
    } else {
      assert Step(h, p) == p;
      SetValueGet(h, p, x, v, k);
      SetValuePending(h, p, c.it, x, v, k);
    }
  }

  lemma {:induction false} DeleteTracks<K(!new), V>(h: K -> nat, c: Config<K, V>, k: K)
    requires Running(h, c) && !c.done
    ensures var c' := Act(h, c, DoDeleteReturned);
            Running(h, c') && (Tracked(h, c, k) ==> Tracked(h, c', k)) && c'.s.iterators == c.s.iterators
  {
    Bounds(h, c.s);
    hide Inv, Standing, Pending, Unlink, Get;
    var x := c.out[|c.out| - 1];
    assert Find(h, c.s) == c.s;
    if Get(h, c.s, x).Some? {
      UnlinkGet(h, c.s, x, k);
      UnlinkPending(h, c.s, c.it, x, k);
    }
  }

  lemma {:induction false} NextTracks<K(!new), V>(h: K -> nat, c: Config<K, V>, k: K)
    requires Running(h, c) && !c.done
    ensures Running(h, Act(h, c, DoNext)) && (Tracked(h, c, k) ==> Tracked(h, Act(h, c, DoNext), k))
  {
    NextStep(h, c.s, c.it, k);
    var r := Next(c.s, c.it);
    hide Inv, Standing, Pending, Get, Next;
    if r.entry.Some? {
      assert multiset(c.out + [r.entry.value])[k] == multiset(c.out)[k] + (if r.entry == Some(k) then 1 else 0);
    }
  }

  lemma {:induction false} ActTracks<K(!new), V>(h: K -> nat, c: Config<K, V>, a: Action<K, V>, k: K)
    requires Running(h, c) && !c.done
    ensures Running(h, Act(h, c, a)) && (Tracked(h, c, k) ==> Tracked(h, Act(h, c, a), k))
    ensures Act(h, c, a).s.iterators == c.s.iterators && Act(h, c, a).gone >= c.gone
  {
    match a
    case DoFind => Bounds(h, c.s);
    case DoAdd(x, v, can) => AddTracks(h, c, x, v, can, k);
    case DoReplace(x, v, can) => ReplaceTracks(h, c, x, v, can, k);
    case DoDeleteReturned => DeleteTracks(h, c, k);
    case DoResize(can) =>
      var size := if c.s.used0 < INITIAL_SIZE then INITIAL_SIZE else c.s.used0;
      ExpandPending(h, c.s, size, c.it, k);
      ExpandKeeps(h, c.s, size);
      assert Get(h, Resize(c.s, can), k) == Get(h, c.s, k);
    case DoNext => NextTracks(h, c, k);
  }

  /** The actions up to the end of the iteration. */
  ghost function Run<K(!new), V>(h: K -> nat, c: Config<K, V>, actions: seq<Action<K, V>>): (c': Config<K, V>)
    requires Running(h, c)
    ensures Running(h, c') && c'.s.iterators == c.s.iterators
    ensures forall k :: Tracked(h, c, k) ==> Tracked(h, c', k)
    decreases |actions|
  {
    if actions == [] || c.done then c
    else
      AllTracked(h, c, actions[0]);
      Run(h, Act(h, c, actions[0]), actions[1..])
  }

  lemma {:induction false} AllTracked<K(!new), V>(h: K -> nat, c: Config<K, V>, a: Action<K, V>)
    requires Running(h, c) && !c.done
    ensures Running(h, Act(h, c, a)) && Act(h, c, a).s.iterators == c.s.iterators
    ensures forall k :: Tracked(h, c, k) ==> Tracked(h, Act(h, c, a), k)
  {
    hide Inv, Standing, Tracked, Act;
    forall k ensures Tracked(h, c, k) ==> Tracked(h, Act(h, c, a), k) {
      ActTracks(h, c, a, k);
    }
    ActTracks(h, c, a, c.out[0]);
  }

  /**
  Safe iteration. Whatever is done between the calls of dictNext, every key that
  was there when the iteration began and is never deleted is still there, has
  come out at most once, and, when dictNext has returned NULL, exactly once; and
  releasing the iterator restores the count (dict.c:470-475).
  */
  lemma SafeIteration<K(!new), V>(h: K -> nat, s: State<K, V>, actions: seq<Action<K, V>>, k: K)
    requires Inv(h, s) && Get(h, s, k).Some?
    ensures Running(h, Register(s))
    ensures var c := Run(h, Register(s), actions);
            && Inv(h, c.s) && c.s.iterators - 1 == s.iterators
            && (k !in c.gone ==>
                  && Get(h, c.s, k).Some?
                  && multiset(c.out)[k] <= 1
                  && (c.done ==> multiset(c.out)[k] == 1))
  {
    RegisterTracks(h, s, k);
    var c := Run(h, Register(s), actions);
    assert Tracked(h, c, k);
    assert k !in c.out ==> multiset(c.out)[k] == 0;
  }
}
