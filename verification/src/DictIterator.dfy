/** dict.c:419-475: the iterator object, tied to the transitions of DictIteration. */
module DictIterator {
  import opened Common
  import opened DictModel
  import D = Dict
  import opened DictIteration

  class SafeIterator<K(==, !new), V> {
    const d: D.Dict<K, V>
    var table: nat
    var index: int
    var entry: Option<K>
    var nextEntry: Option<K>

    ghost function Now(): Iter<K>
      reads this
    {
      Iter(table, index, entry, nextEntry)
    }

    /** dictGetSafeIterator. */
    constructor (dict: D.Dict<K, V>)
      ensures d == dict && Now() == Begin()
    {
      d := dict;
      table, index, entry, nextEntry := 0, -1, None, None;
    }

    /** dictNext: the key of the next entry, None for NULL. The first call
        registers the iterator with the dictionary. */
    method MoveNext() returns (r: Option<K>)
      requires d.Valid() && (Now() == Begin() || Standing(d.Now(), Now()))
      modifies this, d`iterators
      ensures d.Valid() && d.Contents == old(d.Contents) && r == entry
      ensures d.Now() == old(d.Now()).(iterators := old(d.iterators) + (if old(Now()) == Begin() then 1 else 0))
      ensures old(Now()) != Begin() ==> NextReady(d.Now(), old(Now()))
      ensures Now() == if old(Now()) == Begin() then Seek(d.Now(), 0, 0) else Next(d.Now(), old(Now()))
    {
      hide Inv, Represents, ChainGet, From, Seek;
      if entry.Some? {
        StandingReady(d.Now(), Now());
        entry := nextEntry;
        if entry.Some? {
          ghost var c: Chain<K, V> := Current(d.Now(), table)[index];
          var pos := D.Dict<K, V>.ScanChain((if table == 0 then d.ht0 else d.ht1)[index], entry.value);
          FromAt(c, entry.value, pos);
          SaveNext(pos);
          return entry;
        }
      }
      r := MoveToBucket();
    }

    /** dictReleaseIterator: unregisters the iterator if it was ever moved. */
    method Release()
      requires d.Valid() && (Now() == Begin() || d.iterators > 0)
      requires Now() != Begin() ==> index != -1 || table != 0
      modifies d`iterators
      ensures d.Valid() && d.Contents == old(d.Contents)
      ensures d.Now() == old(d.Now()).(iterators := old(d.iterators) - (if Now() == Begin() then 0 else 1))
    {
      Counted(d.hash, d.Now(), d.Contents, if d.iterators > 0 then d.iterators - 1 else 0);
      hide Inv, Represents;
      if !(index == -1 && table == 0) {
        d.iterators := d.iterators - 1;
      }
    }

    /** Line 463: the successor of the entry about to be returned. */
    method SaveNext(pos: nat)
      requires table <= 1 && 0 <= index < |Current(d.Now(), table)| && pos < |Current(d.Now(), table)[index]|
      modifies this`nextEntry
      ensures nextEntry == var c := Current(d.Now(), table)[index]; if pos + 1 < |c| then Some(c[pos + 1].0) else None
    {
      var c := (if table == 0 then d.ht0 else d.ht1)[index];
      nextEntry := if pos + 1 < |c| then Some(c[pos + 1].0) else None;
    }

    /** Lines 445-446: the first call registers the iterator. */
    method Register()
      requires d.Valid() && (index == -1 ==> table == 0)
      modifies d`iterators
      ensures d.Valid() && d.Contents == old(d.Contents)
      ensures d.Now() == old(d.Now()).(iterators := old(d.iterators) + (if index == -1 then 1 else 0))
    {
      Counted(d.hash, d.Now(), d.Contents, d.iterators + 1);
      hide Inv, Represents;
      if table == 0 && index == -1 {
        d.iterators := d.iterators + 1;
      }
    }

    /** The passes of the loop that start with `entry == NULL` (lines 443-456). */
    method MoveToBucket() returns (r: Option<K>)
      requires d.Valid() && entry == None && nextEntry == None && table <= 1
      requires -1 <= index && (index == -1 ==> table == 0) && (index >= 0 ==> index < |Current(d.Now(), table)|)
      requires table == 1 ==> d.rehashidx != -1
      modifies this, d`iterators
      ensures d.Valid() && d.Contents == old(d.Contents) && r == entry
      ensures d.Now() == old(d.Now()).(iterators := old(d.iterators) + (if old(index) == -1 then 1 else 0))
      ensures Now() == Seek(d.Now(), old(table), old(index) + 1)
    {
      hide Inv, Represents, Seek;
      Register();
      Bounds(d.hash, d.Now());
      r := WalkBuckets();
    }

    /** The passes themselves. */
    method WalkBuckets() returns (r: Option<K>)
      requires entry == None && nextEntry == None && table <= 1
      requires -1 <= index && (index == -1 ==> table == 0) && (index >= 0 ==> index < |Current(d.Now(), table)|)
      requires (table == 1 ==> d.rehashidx != -1) && (d.rehashidx != -1 ==> d.ht1 != [])
      modifies this
      ensures r == entry && Now() == Seek(d.Now(), old(table), old(index) + 1)
    {
      hide Seek;
      ghost var s := d.Now();
      ghost var goal := Seek(s, table, index + 1);
      while true
        invariant table <= 1 && -1 <= index && (index >= 0 ==> index < |Current(s, table)|)
        invariant entry == None && nextEntry == None && goal == Seek(s, table, index + 1)
        decreases 1 - table, |Current(s, table)| - index
      {
        index := index + 1;
        SeekSteps(s, table, index);
        var ht: Table<K, V> := if table == 0 then d.ht0 else d.ht1;
        if index >= |ht| {
          if d.rehashidx != -1 && table == 0 {
            table := table + 1;
            index := 0;
            ht := d.ht1;
            SeekSteps(s, 1, 0);
          } else {
            break;
          }
        }
        if ht[index] != [] {
          entry := Some(ht[index][0].0);
          SaveNext(0);
          return entry;
        }
      }
      return None;
    }
  }

  /** One pass of the loop, bucket by bucket. */
  lemma SeekSteps<K, V>(s: State<K, V>, table: nat, i: nat)
    requires i <= |Current(s, table)|
    ensures var t := Current(s, table);
            if i < |t| then
              if t[i] == [] then Seek(s, table, i) == Seek(s, table, i + 1)
              else Seek(s, table, i) == AtHead(table, i, t[i])
            else if table == 0 && s.Rehashing() then Seek(s, table, i) == Seek(s, 1, 0)
            else Seek(s, table, i) == Iter(table, i, None, None)
  {
  }

  lemma StandingReady<K, V>(s: State<K, V>, it: Iter<K>)
    requires Standing(s, it)
    ensures NextReady(s, it)
  {
  }

  /** When dictNext may be called on a standing iterator. */
  ghost predicate NextReady<K, V>(s: State<K, V>, it: Iter<K>) {
    && it.table <= 1 && -1 <= it.index < |Current(s, it.table)|
    && (it.entry.Some? && it.next.Some? ==>
          it.index >= 0 && ChainGet(Current(s, it.table)[it.index], it.next.value).Some?)
  }

  lemma {:induction false} FromAt<K, V>(c: Chain<K, V>, k: K, pos: nat)
    requires pos < |c| && c[pos].0 == k && forall j :: 0 <= j < pos ==> c[j].0 != k
    ensures From(c, k) == c[pos..]
  {
    if pos > 0 {
      assert c[0].0 != k;
      FromAt(c[1..], k, pos - 1);
    }
  }

  lemma Counted<K(!new), V>(h: K -> nat, s: State<K, V>, m: map<K, V>, n: nat)
    requires Inv(h, s) && Represents(h, s, m)
    ensures Inv(h, s.(iterators := n)) && Represents(h, s.(iterators := n), m)
  {
  }
}
