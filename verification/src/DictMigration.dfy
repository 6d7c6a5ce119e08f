/**
How long a rehash takes. Each call of dictAdd, dictReplace, dictFind, dictDelete
or dictGetRandomKey moves at least one bucket, so a rehash is over before the
table it fills can become as crowded as the one it empties.
*/
module DictMigration {
  import opened Common
  import opened DictModel

  datatype Call<K, V> =
    CallFind | CallRandom | CallAdd(k: K, v: V, can: bool) | CallReplace(k: K, v: V, can: bool) | CallDelete(k: K)

  /** dictGetRandomKey; the entry it draws is left out. */
  ghost function Random<K(!new), V>(h: K -> nat, s: State<K, V>): (r: State<K, V>)
    requires Inv(h, s)
  {
    if s.used0 + s.used1 == 0 then s else Step(h, s)
  }

  ghost function Perform<K(!new), V>(h: K -> nat, s: State<K, V>, c: Call<K, V>): (r: State<K, V>)
    requires Inv(h, s)
  {
    match c
    case CallFind => Find(h, s)
    case CallRandom => Random(h, s)
    case CallAdd(k, v, can) => Add(h, s, k, v, can)
    case CallReplace(k, v, can) => Replace(h, s, k, v, can)
    case CallDelete(k) => Delete(h, s, k)
  }

  /** The state after a list of calls. */
  ghost function After<K(!new), V>(h: K -> nat, s: State<K, V>, calls: seq<Call<K, V>>): (r: State<K, V>)
    requires Inv(h, s)
    ensures Inv(h, r) && r.iterators == s.iterators
    decreases |calls|
  {
    if calls == [] then s
    else
      PerformKeeps(h, s, calls[0]);
      After(h, Perform(h, s, calls[0]), calls[1..])
  }

  lemma {:induction false} PerformKeeps<K(!new), V>(h: K -> nat, s: State<K, V>, c: Call<K, V>)
    requires Inv(h, s)
    ensures Inv(h, Perform(h, s, c)) && Perform(h, s, c).iterators == s.iterators
  {
    match c
    case CallFind => StepKeeps(h, s);
    case CallRandom => StepKeeps(h, s);
    case CallAdd(k, v, can) =>
      if Get(h, s, k) == None {
        InsertGet(h, Prepare(h, s, can), k, v, k);
      }
    case CallReplace(k, v, can) => ReplaceKeepsInv(h, s, k, v, can);
    case CallDelete(k) =>
      StepKeeps(h, s);
      if Get(h, s, k).Some? {
        UnlinkGet(h, Find(h, s), k, k);
      }
  }

  lemma ReplaceKeepsInv<K(!new), V>(h: K -> nat, s: State<K, V>, k: K, v: V, can: bool)
    requires Inv(h, s)
    ensures Inv(h, Replace(h, s, k, v, can)) && Replace(h, s, k, v, can).iterators == s.iterators
  {
    hide Inv, Insert, Step, SetValue;
    var p := Prepare(h, s, can);
    if Get(h, s, k) == None {
      InsertGet(h, p, k, v, k);
    } else {
      StepKeeps(h, p);
      SetValueGet(h, Step(h, p), k, v, k);
    }
  }

  /** The number of buckets that are not empty. */
  ghost function NonEmpty<K, V>(t: Table<K, V>): nat {
    if t == [] then 0 else (if t[0] == [] then 0 else 1) + NonEmpty(t[1..])
  }

  lemma {:induction false} NonEmptyAtMostTotal<K, V>(t: Table<K, V>)
    ensures NonEmpty(t) <= Total(t)
  {
    if t != [] { NonEmptyAtMostTotal(t[1..]); }
  }

  lemma {:induction false} NonEmptyUpdate<K, V>(t: Table<K, V>, i: nat, c: Chain<K, V>)
    requires i < |t|
    ensures NonEmpty(t[i := c]) == NonEmpty(t) - (if t[i] == [] then 0 else 1) + (if c == [] then 0 else 1)
  {
    if i == 0 {
      assert t[i := c][1..] == t[1..];
    } else {
      NonEmptyUpdate(t[1..], i - 1, c);
      assert t[i := c][1..] == t[1..][i - 1 := c];
    }
  }

  lemma SomeNonEmpty<K(!new), V>(h: K -> nat, s: State<K, V>)
    requires Inv(h, s) && s.Rehashing() && s.used0 != 0
    ensures NonEmpty(s.ht0) > 0
  {
    CursorInBounds(h, s);
    NonEmptyUpdate(s.ht0, FirstNonEmpty(s.ht0, s.rehashidx), []);
  }

  /** A step while the old table still has entries. */
  lemma StepProgress<K(!new), V>(h: K -> nat, s: State<K, V>)
    requires Inv(h, s) && s.Rehashing() && s.iterators == 0 && s.used0 != 0
    ensures Ready(s)
    ensures var m := Step(h, s);
            && Inv(h, m) && m.Rehashing() && m.iterators == 0 && NonEmpty(m.ht0) < NonEmpty(s.ht0)
            && |m.ht1| == |s.ht1| && m.used0 + m.used1 == s.used0 + s.used1
  {
    Bounds(h, s);
    CursorInBounds(h, s);
    StepKeeps(h, s);
    assert Step(h, s) == Migrate(h, s);
    NonEmptyUpdate(s.ht0, FirstNonEmpty(s.ht0, s.rehashidx), []);
  }

  /** The rehash into a table of `size` buckets has only to hand over, or has done
      it; there are at most `n` entries. */
  predicate Emptied<K, V>(s: State<K, V>, size: nat, n: nat) {
    if s.Rehashing() then s.used0 == 0 && |s.ht1| == size && s.used1 <= n
    else |s.ht0| == size && s.used0 <= n
  }

  /** One call during a rehash that is not ready to finish: a bucket less in the
      old table, and at most one entry more in all. Only dictReplace, which takes
      two steps for a key that is present, can also hand over. */
  lemma {:induction false} CallProgress<K(!new), V>(h: K -> nat, s: State<K, V>, c: Call<K, V>)
    requires Inv(h, s) && s.Rehashing() && s.iterators == 0 && s.used0 != 0
    ensures var r := Perform(h, s, c);
            if r.Rehashing() then
              && NonEmpty(r.ht0) < NonEmpty(s.ht0) && |r.ht1| == |s.ht1|
              && r.used0 + r.used1 <= s.used0 + s.used1 + 1
            else c.CallReplace? && Emptied(r, |s.ht1|, s.used0 + s.used1)
  {
    StepProgress(h, s);
    var m := Step(h, s);
    hide Inv, Get, Step, NonEmpty, SetValue;
    match c
    case CallFind =>
    case CallRandom =>
    case CallAdd(k, v, can) => InsertSize(h, m, k, v);
    case CallDelete(k) => UnlinkSize(h, m, k);
    case CallReplace(k, v, can) =>
      if Get(h, s, k) == None {
        InsertSize(h, m, k, v);
      } else {
        SecondStep(h, m, k, v);
      }
  }

  /** The dictFind and the overwrite of dictReplace. */
  lemma SecondStep<K(!new), V>(h: K -> nat, m: State<K, V>, k: K, v: V)
    requires Inv(h, m) && m.Rehashing() && m.iterators == 0
    ensures Ready(m)
    ensures var r := SetValue(h, Step(h, m), k, v);
            if r.Rehashing() then
              && NonEmpty(r.ht0) <= NonEmpty(m.ht0) && |r.ht1| == |m.ht1|
              && r.used0 + r.used1 == m.used0 + m.used1
            else Emptied(r, |m.ht1|, m.used0 + m.used1)
  {
    Bounds(h, m);
    if m.used0 != 0 {
      StepProgress(h, m);
    }
    SetValueSize(h, Step(h, m), k, v);
  }

  lemma SetValueSize<K(!new), V>(h: K -> nat, s: State<K, V>, k: K, v: V)
    ensures var r := SetValue(h, s, k, v);
            && r.rehashidx == s.rehashidx && NonEmpty(r.ht0) == NonEmpty(s.ht0)
            && |r.ht0| == |s.ht0| && |r.ht1| == |s.ht1| && r.used0 == s.used0 && r.used1 == s.used1
  {
    if s.ht0 != [] {
      var i := Slot(h, s.ht0, k);
      NonEmptyUpdate(s.ht0, i, ChainSet(s.ht0[i], k, v));
    }
  }

  lemma InsertSize<K(!new), V>(h: K -> nat, s: State<K, V>, k: K, v: V)
    requires Ready(s) && s.Rehashing()
    ensures var r := Insert(h, s, k, v);
            r.Rehashing() && r.ht0 == s.ht0 && |r.ht1| == |s.ht1| && r.used0 + r.used1 == s.used0 + s.used1 + 1
  {
  }

  lemma UnlinkSize<K(!new), V>(h: K -> nat, s: State<K, V>, k: K)
    ensures var r := Unlink(h, s, k);
            && r.rehashidx == s.rehashidx && NonEmpty(r.ht0) <= NonEmpty(s.ht0) && |r.ht1| == |s.ht1|
            && r.used0 + r.used1 <= s.used0 + s.used1
  {
    if s.ht0 != [] {
      var i := Slot(h, s.ht0, k);
      NonEmptyUpdate(s.ht0, i, ChainRemove(s.ht0[i], k));
    }
  }

  /** Within NonEmpty(s.ht0) calls the old table is empty, and the next step hands
      over if the last call has not done so. */
  lemma {:induction false} EmptiesInTime<K(!new), V>(h: K -> nat, s: State<K, V>, calls: seq<Call<K, V>>)
    returns (i: nat)
    requires Inv(h, s) && s.Rehashing() && s.iterators == 0 && |calls| >= NonEmpty(s.ht0)
    ensures i <= NonEmpty(s.ht0) && i <= |calls|
    ensures Emptied(After(h, s, calls[..i]), |s.ht1|, s.used0 + s.used1 + i)
    ensures forall j :: 0 <= j < i ==> var r := After(h, s, calls[..j]); r.Rehashing() && r.used0 != 0
    decreases |calls|
  {
    hide Inv, Perform;
    if s.used0 == 0 {
      i := 0;
      assert calls[..0] == [];
    } else {
      SomeNonEmpty(h, s);
      CallProgress(h, s, calls[0]);
      PerformKeeps(h, s, calls[0]);
      var s' := Perform(h, s, calls[0]);
      var i' := 0;
      if s'.Rehashing() {
        i' := EmptiesInTime(h, s', calls[1..]);
      } else {
        assert calls[1..][..0] == [];
      }
      i := i' + 1;
      AfterCons(h, s, calls, i);
      forall j | 0 <= j < i ensures var r := After(h, s, calls[..j]); r.Rehashing() && r.used0 != 0 {
        if j == 0 {
          assert calls[..0] == [];
        } else {
          AfterCons(h, s, calls, j);
        }
      }
    }
  }

  lemma {:induction false} AfterCons<K(!new), V>(h: K -> nat, s: State<K, V>, calls: seq<Call<K, V>>, j: nat)
    requires Inv(h, s) && 0 < j <= |calls|
    ensures Inv(h, Perform(h, s, calls[0]))
    ensures After(h, s, calls[..j]) == After(h, Perform(h, s, calls[0]), calls[1..][..j - 1])
  {
    PerformKeeps(h, s, calls[0]);
    assert calls[..j][1..] == calls[1..][..j - 1];
  }

  /**
  A rehash that a dictAdd starts while no safe iterator runs is over within one
  step more than the old table has buckets in use. When the new table takes over
  it has at least 2u buckets and at most 2u + 1 entries, u being the number of
  entries when the rehash began.
  */
  lemma {:induction false} BoundedMigration<K(!new), V>(
      h: K -> nat, s: State<K, V>, k: K, v: V, can: bool, calls: seq<Call<K, V>>)
    returns (i: nat)
    requires Inv(h, s) && !s.Rehashing() && s.iterators == 0
    requires Add(h, s, k, v, can).Rehashing()
    requires |calls| >= NonEmpty(s.ht0)
    ensures Inv(h, Add(h, s, k, v, can))
    ensures i <= NonEmpty(s.ht0) <= s.used0 && i <= |calls|
    ensures var r := After(h, Add(h, s, k, v, can), calls[..i]);
            && (r.Rehashing() ==> r.used0 == 0)
            && !Step(h, r).Rehashing() && 2 * s.used0 <= |Step(h, r).ht0| && Step(h, r).used0 <= 2 * s.used0 + 1
    ensures forall j :: 0 <= j < i ==>
              var r := After(h, Add(h, s, k, v, can), calls[..j]); r.Rehashing() && r.used0 != 0
  {
    var r := Add(h, s, k, v, can);
    PerformKeeps(h, s, CallAdd(k, v, can));
    AddStarts(h, s, k, v, can);
    NonEmptyAtMostTotal(s.ht0);
    i := EmptiesInTime(h, r, calls);
    Bounds(h, After(h, r, calls[..i]));
  }

  /** What dictAdd leaves when it starts a rehash. */
  lemma AddStarts<K(!new), V>(h: K -> nat, s: State<K, V>, k: K, v: V, can: bool)
    requires Inv(h, s) && !s.Rehashing() && Add(h, s, k, v, can).Rehashing()
    ensures var r := Add(h, s, k, v, can);
            && r.ht0 == s.ht0 && r.used0 == s.used0 && r.used1 <= 1
            && |r.ht1| >= 2 * s.used0
  {
    Bounds(h, s);
    assert Step(h, s) == s;
    hide Inv, Get;
    var size := (if |s.ht0| > s.used0 then |s.ht0| else s.used0) * 2;
    assert Prepare(h, s, can) == Expand(s, size);
    if Get(h, s, k) == None {
      InsertSize(h, Expand(s, size), k, v);
    }
  }
}
